/** The graph the searches of Test.py and code.py walk: a networkx graph seen
    through `graph.neighbors(node)` and `graph[node][neighbor].get('weight', 1)`,
    written as an adjacency map whose edge lists are in iteration order. */
module Graphs {
  /** An edge to `to`; `weight` is `None` when the edge has no `weight`
      attribute. */
  datatype Edge = Edge(to: string, weight: Option<int>)

  datatype Option<T> = None | Some(value: T)

  /** Each node's outgoing edges (successors in a directed graph, all
      incident edges in an undirected one), in networkx's iteration order. */
  type Graph = map<string, seq<Edge>>

  /** What a search returns: its list of visited-list snapshots, or the
      failure `graph.neighbors` raises for a start node not in the graph. */
  datatype Outcome = Steps(steps: seq<seq<string>>) | UnknownNode(node: string)

  /** `graph.neighbors(node)`. */
  function Neighbors(g: Graph, node: string): (ns: seq<string>)
    requires node in g
    ensures |ns| == |g[node]|
    ensures forall k :: 0 <= k < |ns| ==> ns[k] == g[node][k].to
  {
    seq(|g[node]|, k requires 0 <= k < |g[node]| => g[node][k].to)
  }

  /** `graph[node][neighbor].get('weight', 1)`. */
  function WeightOf(e: Edge): (w: int)
    ensures e.weight.None? ==> w == 1
    ensures e.weight.Some? ==> w == e.weight.value
  {
    match e.weight
    case None => 1
    case Some(w) => w
  }

  /** What networkx guarantees of an adjacency: every neighbour is a node of
      the graph, and no node lists the same neighbour twice. */
  predicate Adjacency(g: Graph)
  {
    forall n :: n in g ==>
      && (forall k :: 0 <= k < |g[n]| ==> g[n][k].to in g)
      && (forall k, l :: 0 <= k < l < |g[n]| ==> g[n][k].to != g[n][l].to)
  }

  /** What the edge form of the app enforces on top: weights of at least 1. */
  predicate PositiveWeights(g: Graph)
  {
    forall n, k :: n in g && 0 <= k < |g[n]| ==> WeightOf(g[n][k]) >= 1
  }

  predicate NoDup(s: seq<string>)
  {
    forall i, j :: 0 <= i < j < |s| ==> s[i] != s[j]
  }

  /** A list without repeats splits into two lists without repeats that
      share nothing. */
  lemma NoDupSplit(a: seq<string>, b: seq<string>)
    requires NoDup(a + b)
    ensures NoDup(a) && NoDup(b)
    ensures forall x :: x in b ==> x !in a
  {
    forall i, j | 0 <= i < |a| && 0 <= j < |b|
      ensures a[i] != b[j]
    {
      assert (a + b)[i] == a[i] && (a + b)[|a| + j] == b[j];
    }
    forall i, j | 0 <= i < j < |b|
      ensures b[i] != b[j]
    {
      assert (a + b)[|a| + i] == b[i] && (a + b)[|a| + j] == b[j];
    }
    forall i, j | 0 <= i < j < |a|
      ensures a[i] != a[j]
    {
      assert (a + b)[i] == a[i] && (a + b)[j] == a[j];
    }
  }

  /** Everything in a prefix is in the whole list. */
  lemma PrefixIn(a: seq<string>, b: seq<string>)
    requires a <= b
    ensures forall x :: x in a ==> x in b
  {
    forall x | x in a
      ensures x in b
    {
      var i :| 0 <= i < |a| && a[i] == x;
      assert b[i] == x;
    }
  }

  /** `steps.append(visited[:])` after each of the visits
      `order[from..]`: the snapshots `order[..from + 1]`, ...,
      `order[..|order|]`. */
  function VisitSnapshots(order: seq<string>, from: nat): (steps: seq<seq<string>>)
    requires from <= |order|
    ensures |steps| == |order| - from
    ensures forall i :: 0 <= i < |steps| ==> steps[i] == order[..from + i + 1]
  {
    seq(|order| - from, i requires 0 <= i < |order| - from => order[..from + i + 1])
  }

  /** The snapshots of the visits `order[from..mid]` followed by those of
      `order[mid..]`. */
  lemma VisitSnapshotsSplit(order: seq<string>, from: nat, mid: nat, prefix: seq<string>)
    requires from <= mid <= |order| && prefix == order[..mid]
    ensures VisitSnapshots(order, from) == VisitSnapshots(prefix, from) + VisitSnapshots(order, mid)
  {
    var a, b, c := VisitSnapshots(order, from), VisitSnapshots(prefix, from), VisitSnapshots(order, mid);
    assert |a| == |b + c|;
    forall i | 0 <= i < |a|
      ensures a[i] == (b + c)[i]
    {
      if i < |b| {
        assert prefix[..from + i + 1] == order[..from + i + 1];
      }
    }
  }

  /** The snapshot of the last visit alone is the whole list. */
  lemma VisitSnapshotsLast(order: seq<string>, from: nat)
    requires from + 1 == |order|
    ensures VisitSnapshots(order, from) == [order]
  {
    assert order[..|order|] == order;
  }

  /** Snapshots recorded in two stretches are the snapshots of the whole
      stretch. */
  lemma VisitSnapshotsChain(steps0: seq<seq<string>>, steps1: seq<seq<string>>, steps2: seq<seq<string>>,
                            from: nat, mid: seq<string>, order: seq<string>)
    requires from <= |mid| && mid <= order
    requires steps1 == steps0 + VisitSnapshots(mid, from)
    requires steps2 == steps1 + VisitSnapshots(order, |mid|)
    ensures steps2 == steps0 + VisitSnapshots(order, from)
  {
    VisitSnapshotsSplit(order, from, |mid|, mid);
    assert steps2 == steps0 + (VisitSnapshots(mid, from) + VisitSnapshots(order, |mid|));
  }

  /** Visiting one more node appends one snapshot: the new visited list. */
  lemma VisitSnapshotsAppend(order: seq<string>, x: string)
    ensures VisitSnapshots(order + [x], 0) == VisitSnapshots(order, 0) + [order + [x]]
  {
    var o := order + [x];
    VisitSnapshotsSplit(o, 0, |order|, order);
    assert o[..|o|] == o;
  }

  /** A trace of snapshots of a duplicate-free visit order from `start`:
      the first step is `[start]` and each later step is the one before it
      with one node added that was not in it. */
  lemma SnapshotsExtend(order: seq<string>, start: string)
    requires |order| >= 1 && order[0] == start && NoDup(order)
    ensures var steps := VisitSnapshots(order, 0);
      && |steps| == |order| && steps[0] == [start]
      && (forall i :: 1 <= i < |steps| ==>
            steps[i] == steps[i - 1] + [order[i]] && order[i] !in steps[i - 1])
      && steps[|steps| - 1] == order
  {
    var steps := VisitSnapshots(order, 0);
    forall i | 1 <= i < |steps|
      ensures steps[i] == steps[i - 1] + [order[i]] && order[i] !in steps[i - 1]
    {
      assert order[..i + 1] == order[..i] + [order[i]];
    }
    assert order[..|order|] == order;
  }

  /** `p` is a walk along edges of `g`. */
  ghost predicate IsPath(g: Graph, p: seq<string>)
  {
    && |p| >= 1 && p[0] in g
    && forall i :: 0 <= i < |p| - 1 ==> p[i] in g && p[i + 1] in Neighbors(g, p[i])
  }

  /** `b` can be reached from `a` by following edges. */
  ghost predicate Reachable(g: Graph, a: string, b: string)
  {
    exists p :: IsPath(g, p) && p[0] == a && p[|p| - 1] == b
  }

  lemma ReachableSelf(g: Graph, a: string)
    requires a in g
    ensures Reachable(g, a, a)
  {
    assert IsPath(g, [a]);
  }

  /** Following one more edge stays reachable. */
  lemma ReachableStep(g: Graph, a: string, b: string, c: string)
    requires Reachable(g, a, b) && b in g && c in Neighbors(g, b)
    ensures Reachable(g, a, c)
  {
    var p :| IsPath(g, p) && p[0] == a && p[|p| - 1] == b;
    var q := p + [c];
    assert forall i :: 0 <= i < |p| ==> q[i] == p[i];
    assert IsPath(g, q);
  }

  /** No neighbour of a node of `s` lies outside `s`. */
  predicate Closed(g: Graph, s: seq<string>)
  {
    forall x :: x in s ==> x in g && forall y :: y in Neighbors(g, x) ==> y in s
  }

  /** A closed list holding `a` holds every node reachable from `a`. */
  lemma ClosedHoldsReachable(g: Graph, s: seq<string>, a: string, b: string)
    requires Closed(g, s) && a in s && Reachable(g, a, b)
    ensures b in s
  {
    var p :| IsPath(g, p) && p[0] == a && p[|p| - 1] == b;
    PathInside(g, s, p, |p| - 1);
  }

  lemma {:induction false} PathInside(g: Graph, s: seq<string>, p: seq<string>, i: nat)
    requires Closed(g, s) && IsPath(g, p) && p[0] in s && i < |p|
    ensures p[i] in s
  {
    if i > 0 {
      PathInside(g, s, p, i - 1);
      assert p[i] in Neighbors(g, p[i - 1]);
    }
  }

  /** The nodes of `g` not yet visited: it bounds the remaining work of every
      search. */
  function Unvisited(g: Graph, visited: seq<string>): nat
  {
    |g.Keys - (set x | x in visited)|
  }

  /** Visiting a new node of the graph lowers the count. */
  lemma UnvisitedShrinks(g: Graph, visited: seq<string>, x: string)
    requires x in g && x !in visited
    ensures Unvisited(g, visited + [x]) < Unvisited(g, visited)
  {
    var a := g.Keys - (set y | y in visited);
    var b := g.Keys - (set y | y in visited + [x]);
    assert a == b + {x};
  }

  /** Visiting more nodes never raises the count. */
  lemma UnvisitedMonotone(g: Graph, visited: seq<string>, more: seq<string>)
    requires forall x :: x in visited ==> x in more
    ensures Unvisited(g, more) <= Unvisited(g, visited)
  {
    var a := g.Keys - (set y | y in visited);
    var b := g.Keys - (set y | y in more);
    SubsetCard(b, a);
  }

  lemma {:induction false} SubsetCard(b: set<string>, a: set<string>)
    requires b <= a
    ensures |b| <= |a|
    decreases |a|
  {
    if b != {} {
      var x :| x in b;
      SubsetCard(b - {x}, a - {x});
    }
  }
}
