/** The dependency graph of a plan (crates/mp/src/path_engine.rs), and what it says of the
    milestones. */
module PlanGraph {
  import opened Prelude
  import opened Digraph

  datatype Milestone = Milestone(id: string, dependsOn: seq<string>)

  function KnownIds(ms: seq<Milestone>, norm: string -> string): set<string> {
    set m | m in ms :: norm(m.id)
  }

  /** The dependencies that count: not empty, not "none", and naming a milestone of the plan. */
  function KnownDeps(deps: seq<string>, ids: set<string>, norm: string -> string): (r: seq<string>)
    ensures forall d :: d in r ==> d in ids
  {
    if deps == [] then []
    else
      var front, last := KnownDeps(deps[..|deps| - 1], ids, norm), deps[|deps| - 1];
      if last == "" || last == "none" || norm(last) !in ids then front
      else front + [norm(last)]
  }

  /** All dependencies of `id`, over every milestone with that id, repetitions kept. */
  function DepsOf(ms: seq<Milestone>, ids: set<string>, id: string, norm: string -> string): (r: seq<string>)
    ensures forall d :: d in r ==> d in ids
  {
    if ms == [] then []
    else
      var front, last := DepsOf(ms[..|ms| - 1], ids, id, norm), ms[|ms| - 1];
      if norm(last.id) == id then front + KnownDeps(last.dependsOn, ids, norm) else front
  }

  function DependencyGraph(ms: seq<Milestone>, norm: string -> string): Graph {
    map id | id in KnownIds(ms, norm) :: DepsOf(ms, KnownIds(ms, norm), id, norm)
  }

  // ---------- How often a sequence holds a name ----------

  ghost function Count(s: seq<string>, x: string): nat {
    multiset(s)[x]
  }

  lemma CountPositive(s: seq<string>, x: string)
    ensures Count(s, x) > 0 <==> x in s
  {}

  lemma CountAppended(s: seq<string>, x: string, y: string)
    ensures Count(s + [x], y) == Count(s, y) + if x == y then 1 else 0
  {
    assert multiset(s + [x]) == multiset(s) + multiset{x};
  }

  // ---------- What the graph says of the milestones ----------

  /** The entry `j` of the dependencies of milestone `i` makes `id` depend on `dep`: it is not
      empty, not "none", and `dep` is the id of a milestone of the plan. */
  predicate Names(ms: seq<Milestone>, norm: string -> string, i: nat, j: nat, id: string, dep: string) {
    && i < |ms| && j < |ms[i].dependsOn| && norm(ms[i].id) == id
    && ms[i].dependsOn[j] != "" && ms[i].dependsOn[j] != "none" && norm(ms[i].dependsOn[j]) == dep
    && exists k :: 0 <= k < |ms| && norm(ms[k].id) == dep
  }

  ghost predicate DependsOn(ms: seq<Milestone>, norm: string -> string, id: string, dep: string) {
    exists i: nat, j: nat :: Names(ms, norm, i, j, id, dep)
  }

  /** The entries that make `id` depend on `dep`. */
  ghost function Mentions(ms: seq<Milestone>, norm: string -> string, id: string, dep: string): set<(nat, nat)> {
    set i: nat, j: nat | i < |ms| && j < |ms[i].dependsOn| && Names(ms, norm, i, j, id, dep) :: (i, j)
  }

  lemma KnownIdsListed(ms: seq<Milestone>, norm: string -> string)
    ensures forall id :: id in KnownIds(ms, norm) <==> exists k :: 0 <= k < |ms| && norm(ms[k].id) == id
  {
    forall id | id in KnownIds(ms, norm) ensures exists k :: 0 <= k < |ms| && norm(ms[k].id) == id {
      var m :| m in ms && norm(m.id) == id;
      var k :| 0 <= k < |ms| && ms[k] == m;
    }
  }

  /** The positions at which `deps` names `dep`. */
  ghost function Spots(deps: seq<string>, norm: string -> string, dep: string): set<nat> {
    set j: nat | j < |deps| && deps[j] != "" && deps[j] != "none" && norm(deps[j]) == dep
  }

  lemma {:induction false} KnownDepsCounted(deps: seq<string>, ids: set<string>, norm: string -> string, dep: string)
    ensures Count(KnownDeps(deps, ids, norm), dep) == if dep in ids then |Spots(deps, norm, dep)| else 0
  {
    if deps == [] {
      assert Spots(deps, norm, dep) == {};
    } else {
      var n := |deps| - 1;
      KnownDepsCounted(deps[..n], ids, norm, dep);
      CountAppended(KnownDeps(deps[..n], ids, norm), norm(deps[n]), dep);
      if deps[n] != "" && deps[n] != "none" && norm(deps[n]) == dep {
        assert Spots(deps, norm, dep) == Spots(deps[..n], norm, dep) + {n};
      } else {
        assert Spots(deps, norm, dep) == Spots(deps[..n], norm, dep);
      }
    }
  }

  /** The entries among the first `n` milestones, for a `dep` of the plan. */
  ghost function MentionsBelow(ms: seq<Milestone>, norm: string -> string, n: nat, id: string, dep: string)
    : set<(nat, nat)>
    requires n <= |ms|
  {
    set i: nat, j: nat |
      i < n && j < |ms[i].dependsOn| && norm(ms[i].id) == id && j in Spots(ms[i].dependsOn, norm, dep) :: (i, j)
  }

  ghost function Row(i: nat, js: set<nat>): set<(nat, nat)> {
    set j: nat | j in js :: (i, j)
  }

  lemma {:induction false} RowSize(i: nat, js: set<nat>)
    ensures |Row(i, js)| == |js|
  {
    if js == {} {
      assert Row(i, js) == {};
    } else {
      var j :| j in js;
      RowSize(i, js - {j});
      assert Row(i, js) == Row(i, js - {j}) + {(i, j)};
    }
  }

  lemma MentionsNext(ms: seq<Milestone>, norm: string -> string, n: nat, id: string, dep: string)
    requires 0 < n <= |ms|
    ensures var last := if norm(ms[n - 1].id) == id then Row(n - 1, Spots(ms[n - 1].dependsOn, norm, dep)) else {};
      && MentionsBelow(ms, norm, n, id, dep) == MentionsBelow(ms, norm, n - 1, id, dep) + last
      && MentionsBelow(ms, norm, n - 1, id, dep) !! last
  {}

  lemma DepsOfFront(ms: seq<Milestone>, ids: set<string>, norm: string -> string, n: nat, id: string)
    requires 0 < n <= |ms|
    ensures DepsOf(ms[..n], ids, id, norm) == DepsOf(ms[..n - 1], ids, id, norm) +
      if norm(ms[n - 1].id) == id then KnownDeps(ms[n - 1].dependsOn, ids, norm) else []
  {
    var front := ms[..n];
    assert front[..n - 1] == ms[..n - 1] && front[n - 1] == ms[n - 1];
  }

  lemma {:induction false} DepsCounted(ms: seq<Milestone>, ids: set<string>, norm: string -> string,
      n: nat, id: string, dep: string)
    requires n <= |ms| && dep in ids
    ensures Count(DepsOf(ms[..n], ids, id, norm), dep) == |MentionsBelow(ms, norm, n, id, dep)|
  {
    if n == 0 {
      assert MentionsBelow(ms, norm, n, id, dep) == {};
    } else {
      DepsCounted(ms, ids, norm, n - 1, id, dep);
      OneMoreCounted(ms, ids, norm, n, id, dep);
    }
  }

  lemma OneMoreCounted(ms: seq<Milestone>, ids: set<string>, norm: string -> string, n: nat, id: string, dep: string)
    requires 0 < n <= |ms| && dep in ids
    requires Count(DepsOf(ms[..n - 1], ids, id, norm), dep) == |MentionsBelow(ms, norm, n - 1, id, dep)|
    ensures Count(DepsOf(ms[..n], ids, id, norm), dep) == |MentionsBelow(ms, norm, n, id, dep)|
  {
    var deps, mine := ms[n - 1].dependsOn, norm(ms[n - 1].id) == id;
    DepsOfFront(ms, ids, norm, n, id);
    CountJoined(DepsOf(ms[..n - 1], ids, id, norm), if mine then KnownDeps(deps, ids, norm) else [], dep);
    MentionsNext(ms, norm, n, id, dep);
    if mine {
      KnownDepsCounted(deps, ids, norm, dep);
      RowSize(n - 1, Spots(deps, norm, dep));
    } else {
      CountPositive([], dep);
    }
  }

  lemma CountJoined(a: seq<string>, b: seq<string>, x: string)
    ensures Count(a + b, x) == Count(a, x) + Count(b, x)
  {
    assert multiset(a + b) == multiset(a) + multiset(b);
  }

  /** The graph has the ids of the plan, and between two ids as many edges as there are entries
      that make the one depend on the other. */
  lemma GraphIsOfMilestones(ms: seq<Milestone>, norm: string -> string)
    ensures var g := DependencyGraph(ms, norm);
      && (forall id :: id in g <==> exists k :: 0 <= k < |ms| && norm(ms[k].id) == id)
      && (forall id, dep :: id in g ==> Count(g[id], dep) == |Mentions(ms, norm, id, dep)|)
      && (forall id, dep :: id in g ==> (dep in g[id] <==> DependsOn(ms, norm, id, dep)))
  {
    var g, ids := DependencyGraph(ms, norm), KnownIds(ms, norm);
    KnownIdsListed(ms, norm);
    forall id, dep | id in g
      ensures Count(g[id], dep) == |Mentions(ms, norm, id, dep)|
      ensures dep in g[id] <==> DependsOn(ms, norm, id, dep)
    {
      EntriesCounted(ms, norm, id, dep);
      EntryExists(ms, norm, id, dep);
      CountPositive(g[id], dep);
    }
  }

  lemma EntriesCounted(ms: seq<Milestone>, norm: string -> string, id: string, dep: string)
    requires id in KnownIds(ms, norm)
    ensures Count(DependencyGraph(ms, norm)[id], dep) == |Mentions(ms, norm, id, dep)|
  {
    var ids := KnownIds(ms, norm);
    KnownIdsListed(ms, norm);
    if dep in ids {
      DepsCounted(ms, ids, norm, |ms|, id, dep);
      assert ms[..|ms|] == ms;
      assert MentionsBelow(ms, norm, |ms|, id, dep) == Mentions(ms, norm, id, dep);
    } else {
      assert dep !in DepsOf(ms, ids, id, norm);
      CountPositive(DepsOf(ms, ids, id, norm), dep);
      assert Mentions(ms, norm, id, dep) == {};
    }
  }

  lemma EntryExists(ms: seq<Milestone>, norm: string -> string, id: string, dep: string)
    ensures |Mentions(ms, norm, id, dep)| > 0 <==> DependsOn(ms, norm, id, dep)
  {
    if DependsOn(ms, norm, id, dep) {
      var i: nat, j: nat :| Names(ms, norm, i, j, id, dep);
      assert (i, j) in Mentions(ms, norm, id, dep);
    }
    if |Mentions(ms, norm, id, dep)| > 0 {
      var p :| p in Mentions(ms, norm, id, dep);
      assert Names(ms, norm, p.0, p.1, id, dep);
    }
  }

  /** Ids each of which depends on the next. */
  ghost predicate IsChain(ms: seq<Milestone>, norm: string -> string, chain: seq<string>) {
    && (forall i :: 0 <= i < |chain| ==> exists k :: 0 <= k < |ms| && norm(ms[k].id) == chain[i])
    && (forall i :: 0 <= i < |chain| - 1 ==> DependsOn(ms, norm, chain[i], chain[i + 1]))
  }

  /** No cycle can be reached from `id` along dependencies. */
  ghost predicate ReachesNoCycle(ms: seq<Milestone>, norm: string -> string, id: string) {
    forall chain, i, j ::
      IsChain(ms, norm, chain) && 0 <= i < j < |chain| && chain[0] == id ==> chain[i] != chain[j]
  }

  lemma {:induction false} WalkIsChain(ms: seq<Milestone>, norm: string -> string, walk: seq<string>)
    requires |walk| > 0 && walk[0] in DependencyGraph(ms, norm)
    ensures IsWalk(DependencyGraph(ms, norm), walk) <==> IsChain(ms, norm, walk)
    decreases |walk|
  {
    var g := DependencyGraph(ms, norm);
    GraphIsOfMilestones(ms, norm);
    if IsWalk(g, walk) {
      StaysInGraph(ms, norm, walk);
      forall i | 0 <= i < |walk| - 1 ensures DependsOn(ms, norm, walk[i], walk[i + 1]) {
        assert walk[i + 1] in Next(g, walk[i]);
      }
    }
    if IsChain(ms, norm, walk) {
      forall i | 0 <= i < |walk| - 1 ensures walk[i + 1] in Next(g, walk[i]) {
        assert walk[i] in g;
      }
    }
  }

  lemma {:induction false} StaysInGraph(ms: seq<Milestone>, norm: string -> string, walk: seq<string>)
    requires |walk| > 0 && walk[0] in DependencyGraph(ms, norm) && IsWalk(DependencyGraph(ms, norm), walk)
    ensures forall i :: 0 <= i < |walk| ==> walk[i] in DependencyGraph(ms, norm)
    decreases |walk|
  {
    if |walk| > 1 {
      var front := walk[..|walk| - 1];
      WalkSlice(DependencyGraph(ms, norm), walk, 0, |walk| - 1);
      StaysInGraph(ms, norm, front);
      assert walk[|walk| - 2] == front[|front| - 1];
      assert walk[|walk| - 2 + 1] in Next(DependencyGraph(ms, norm), walk[|walk| - 2]);
    }
  }
}
