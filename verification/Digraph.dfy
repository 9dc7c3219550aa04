/** Finite directed graphs given by successor lists: walks, cycles and ranking orders.
    The reference checker and the planner both rest on these. */
module Digraph {
  import opened Prelude

  type Graph = map<string, seq<string>>

  function Next(g: Graph, n: string): seq<string> {
    if n in g then g[n] else []
  }

  ghost predicate IsWalk(g: Graph, walk: seq<string>) {
    forall i :: 0 <= i < |walk| - 1 ==> walk[i + 1] in Next(g, walk[i])
  }

  ghost predicate IsCycle(g: Graph, walk: seq<string>) {
    |walk| >= 2 && IsWalk(g, walk) && walk[0] == walk[|walk| - 1]
  }

  ghost predicate Acyclic(g: Graph) {
    forall walk :: !IsCycle(g, walk)
  }

  /** Every name of `order` comes after all of its successors. */
  ghost predicate NextFirst(g: Graph, order: seq<string>) {
    && Distinct(order)
    && forall i, t :: 0 <= i < |order| && t in Next(g, order[i]) ==> t in order[..i]
  }

  ghost predicate Ranks(g: Graph, order: seq<string>) {
    NextFirst(g, order) && forall n :: n in g ==> n in order
  }

  ghost predicate Ranked(g: Graph) {
    exists order :: Ranks(g, order)
  }

  ghost function Position(order: seq<string>, name: string): (i: nat)
    requires name in order
    ensures i < |order| && order[i] == name
  {
    var i :| 0 <= i < |order| && order[i] == name;
    i
  }

  lemma PositionUnique(order: seq<string>, name: string, i: nat)
    requires Distinct(order) && i < |order| && order[i] == name
    ensures Position(order, name) == i
  {
    assert order[Position(order, name)] == order[i];
  }

  lemma WalkAppend(g: Graph, walk: seq<string>, n: string)
    requires IsWalk(g, walk)
    requires walk == [] || n in Next(g, walk[|walk| - 1])
    ensures IsWalk(g, walk + [n])
  {}

  lemma WalkSlice(g: Graph, walk: seq<string>, i: nat, j: nat)
    requires IsWalk(g, walk) && i <= j <= |walk|
    ensures IsWalk(g, walk[i..j])
  {
    var part := walk[i..j];
    forall k | 0 <= k < |part| - 1 ensures part[k + 1] in Next(g, part[k]) {
      assert walk[i + k + 1] in Next(g, walk[i + k]);
    }
  }

  lemma RepeatIsCycle(g: Graph, walk: seq<string>, i: nat, j: nat)
    requires IsWalk(g, walk) && i < j < |walk| && walk[i] == walk[j]
    ensures IsCycle(g, walk[i..j + 1])
  {
    WalkSlice(g, walk, i, j + 1);
  }

  lemma Appended(g: Graph, order: seq<string>, n: string)
    requires NextFirst(g, order) && n !in order
    requires forall t :: t in Next(g, n) ==> t in order
    ensures NextFirst(g, order + [n])
  {
    var longer := order + [n];
    forall i, t | 0 <= i < |longer| && t in Next(g, longer[i]) ensures t in longer[..i] {
      assert i < |order| ==> longer[..i] == order[..i];
      assert longer[..|order|] == order;
    }
  }

  lemma {:induction false} WalkDescends(g: Graph, order: seq<string>, walk: seq<string>, k: nat)
    requires NextFirst(g, order)
    requires IsWalk(g, walk) && 0 < k < |walk| && walk[0] in order
    ensures walk[k] in order && Position(order, walk[k]) < Position(order, walk[0])
  {
    if k > 1 {
      WalkDescends(g, order, walk, k - 1);
    }
    var p := Position(order, walk[k - 1]);
    assert walk[k - 1 + 1] in Next(g, order[p]);
    assert walk[k] in order[..p];
    var j :| 0 <= j < p && order[j] == walk[k];
    PositionUnique(order, walk[k], j);
  }

  lemma RankedIsAcyclic(g: Graph)
    requires Ranked(g)
    ensures Acyclic(g)
  {
    var order :| Ranks(g, order);
    forall walk ensures !IsCycle(g, walk) {
      if IsCycle(g, walk) {
        assert walk[0 + 1] in Next(g, walk[0]);
        WalkDescends(g, order, walk, |walk| - 1);
      }
    }
  }

  // ---------- An acyclic graph can be ranked ----------

  ghost predicate StaysIn(g: Graph, s: set<string>, n: string) {
    exists t :: t in Next(g, n) && t in s
  }

  /** Every member of `s` has a successor in `s`. */
  ghost predicate HasNoSink(g: Graph, s: set<string>) {
    forall n {:trigger StaysIn(g, s, n)} :: n in s ==> StaysIn(g, s, n)
  }

  lemma {:induction false} WalkWithin(g: Graph, s: set<string>, start: string, k: nat) returns (walk: seq<string>)
    requires HasNoSink(g, s) && start in s
    ensures |walk| == k + 1 && walk[0] == start && IsWalk(g, walk) && Elements(walk) <= s
  {
    if k == 0 {
      walk := [start];
    } else {
      walk := WalkWithin(g, s, start, k - 1);
      assert walk[|walk| - 1] in Elements(walk);
      assert StaysIn(g, s, walk[|walk| - 1]);
      var t :| t in Next(g, walk[|walk| - 1]) && t in s;
      WalkAppend(g, walk, t);
      walk := walk + [t];
    }
  }

  /** A walk that never leaves a finite set closes a cycle that it can reach. */
  lemma NoSinkHasCycle(g: Graph, s: set<string>, start: string) returns (walk: seq<string>, i: nat, j: nat)
    requires HasNoSink(g, s) && start in s
    ensures IsWalk(g, walk) && i < j < |walk| && walk[0] == start && Elements(walk) <= s
    ensures walk[i] == walk[j] && IsCycle(g, walk[i..j + 1])
  {
    walk := WalkWithin(g, s, start, |s|);
    Pigeonhole(walk, s);
    i, j :| 0 <= i < j < |walk| && walk[i] == walk[j];
    RepeatIsCycle(g, walk, i, j);
  }

  ghost function Vertices(g: Graph): (r: set<string>)
    ensures forall n, t :: n in g && t in g[n] ==> t in r
  {
    g.Keys + set n, t | n in g && t in g[n] :: t
  }

  lemma {:induction false} RankingExtends(g: Graph, order: seq<string>) returns (longer: seq<string>)
    requires Acyclic(g) && NextFirst(g, order)
    ensures Ranks(g, longer)
    decreases Vertices(g) - Elements(order)
  {
    var rest := Vertices(g) - Elements(order);
    if rest == {} {
      longer := order;
      forall n | n in g ensures n in order {
        assert n !in rest;
      }
    } else if HasNoSink(g, rest) {
      var start :| start in rest;
      var walk, i, j := NoSinkHasCycle(g, rest, start);
      assert false;
    } else {
      var n :| n in rest && !StaysIn(g, rest, n);
      Appended(g, order, n);
      assert n in Elements(order + [n]);
      assert Elements(order + [n]) == Elements(order) + {n};
      longer := RankingExtends(g, order + [n]);
    }
  }

  lemma AcyclicIffRanked(g: Graph)
    ensures Acyclic(g) <==> Ranked(g)
  {
    if Acyclic(g) {
      var order := RankingExtends(g, []);
    } else if Ranked(g) {
      RankedIsAcyclic(g);
    }
  }
}
