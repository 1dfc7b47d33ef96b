/** `dfs(graph, start_node, visited=None, steps=None)` of Test.py and code.py
    (the two are the same); the shared lists `visited` and `steps` are
    passed in and handed back. */
module DepthFirst {
  import opened Graphs

  /** `dfs(graph, node, visited, steps)` for a node not yet visited: the
      visited list it leaves, which starts with `visited` and then `node`. */
  function DfsVisit(g: Graph, node: string, visited: seq<string>): (r: seq<string>)
    requires Adjacency(g) && node in g && node !in visited
    ensures visited + [node] <= r
    decreases Unvisited(g, visited), 0, 0
  {
    UnvisitedShrinks(g, visited, node);
    DfsEach(g, Neighbors(g, node), visited + [node])
  }

  /** `for neighbor in ns: if neighbor not in visited: dfs(graph, neighbor,
      visited, steps)`: the visited list it leaves. */
  function DfsEach(g: Graph, ns: seq<string>, visited: seq<string>): (r: seq<string>)
    requires Adjacency(g) && forall n :: n in ns ==> n in g
    ensures visited <= r
    decreases Unvisited(g, visited), 1, |ns|
  {
    if ns == [] then visited
    else if ns[0] in visited then DfsEach(g, ns[1..], visited)
    else
      var v := DfsVisit(g, ns[0], visited);
      PrefixIn(visited + [ns[0]], v);
      UnvisitedMonotone(g, visited, v);
      DfsEach(g, ns[1..], v)
  }

  /** The order in which `dfs(graph, start_node)` visits the nodes. */
  function DfsOrder(g: Graph, start: string): (order: seq<string>)
    requires Adjacency(g) && start in g
    ensures |order| >= 1 && order[0] == start
  {
    assert [] + [start] == [start];
    DfsVisit(g, start, [])
  }

  /** Every neighbour of a node a call has visited is visited by the time
      it returns. */
  predicate ClosedOver(g: Graph, r: seq<string>, visited: seq<string>)
  {
    forall x :: x in r && x !in visited ==> x in g && forall y :: y in Neighbors(g, x) ==> y in r
  }

  /** `dfs` on `node` returns only once every neighbour of every node it
      visited is visited. */
  lemma {:induction false} DfsVisitCloses(g: Graph, node: string, visited: seq<string>)
    requires Adjacency(g) && node in g && node !in visited
    ensures ClosedOver(g, DfsVisit(g, node, visited), visited)
    decreases Unvisited(g, visited), 0, 0
  {
    var v := visited + [node];
    UnvisitedShrinks(g, visited, node);
    DfsEachCloses(g, Neighbors(g, node), v);
  }

  /** The loop over `ns` visits every node of `ns` and returns only once
      every neighbour of every node it visited is visited. */
  lemma {:induction false} DfsEachCloses(g: Graph, ns: seq<string>, visited: seq<string>)
    requires Adjacency(g) && forall n :: n in ns ==> n in g
    ensures var r := DfsEach(g, ns, visited);
      && (forall n :: n in ns ==> n in r)
      && ClosedOver(g, r, visited)
    decreases Unvisited(g, visited), 1, |ns|
  {
    if ns != [] {
      var r := DfsEach(g, ns, visited);
      if ns[0] in visited {
        DfsEachCloses(g, ns[1..], visited);
        PrefixIn(visited, r);
      } else {
        var v := DfsVisit(g, ns[0], visited);
        DfsVisitCloses(g, ns[0], visited);
        PrefixIn(visited + [ns[0]], v);
        UnvisitedMonotone(g, visited, v);
        DfsEachCloses(g, ns[1..], v);
        assert r == DfsEach(g, ns[1..], v);
        PrefixIn(v, r);
      }
    }
  }

  /** Every node a call on `node` visits is reachable from any node `node`
      is reachable from. */
  lemma {:induction false} DfsVisitReaches(g: Graph, root: string, node: string, visited: seq<string>)
    requires Adjacency(g) && node in g && node !in visited && Reachable(g, root, node)
    ensures forall x :: x in DfsVisit(g, node, visited) && x !in visited ==> Reachable(g, root, x)
    decreases Unvisited(g, visited), 0, 0
  {
    var ns := Neighbors(g, node);
    forall n | n in ns
      ensures Reachable(g, root, n)
    {
      ReachableStep(g, root, node, n);
    }
    UnvisitedShrinks(g, visited, node);
    DfsEachReaches(g, root, ns, visited + [node]);
  }

  lemma {:induction false} DfsEachReaches(g: Graph, root: string, ns: seq<string>, visited: seq<string>)
    requires Adjacency(g) && forall n :: n in ns ==> n in g && Reachable(g, root, n)
    ensures forall x :: x in DfsEach(g, ns, visited) && x !in visited ==> Reachable(g, root, x)
    decreases Unvisited(g, visited), 1, |ns|
  {
    if ns != [] {
      if ns[0] in visited {
        DfsEachReaches(g, root, ns[1..], visited);
      } else {
        var v := DfsVisit(g, ns[0], visited);
        DfsVisitReaches(g, root, ns[0], visited);
        PrefixIn(visited + [ns[0]], v);
        UnvisitedMonotone(g, visited, v);
        DfsEachReaches(g, root, ns[1..], v);
        assert DfsEach(g, ns, visited) == DfsEach(g, ns[1..], v);
      }
    }
  }

  /** No node is visited twice. */
  lemma {:induction false} DfsVisitNoDup(g: Graph, node: string, visited: seq<string>)
    requires Adjacency(g) && node in g && node !in visited && NoDup(visited)
    ensures NoDup(DfsVisit(g, node, visited))
    decreases Unvisited(g, visited), 0, 0
  {
    AppendNoDup(visited, node);
    UnvisitedShrinks(g, visited, node);
    DfsEachNoDup(g, Neighbors(g, node), visited + [node]);
  }

  lemma {:induction false} DfsEachNoDup(g: Graph, ns: seq<string>, visited: seq<string>)
    requires Adjacency(g) && (forall n :: n in ns ==> n in g) && NoDup(visited)
    ensures NoDup(DfsEach(g, ns, visited))
    decreases Unvisited(g, visited), 1, |ns|
  {
    if ns != [] {
      if ns[0] in visited {
        DfsEachNoDup(g, ns[1..], visited);
      } else {
        var v := DfsVisit(g, ns[0], visited);
        DfsVisitNoDup(g, ns[0], visited);
        PrefixIn(visited + [ns[0]], v);
        UnvisitedMonotone(g, visited, v);
        DfsEachNoDup(g, ns[1..], v);
      }
    }
  }

  lemma AppendNoDup(s: seq<string>, x: string)
    requires NoDup(s) && x !in s
    ensures NoDup(s + [x])
  {
  }

  /** Pre-order: a call on `node` returns only once it has visited every
      node reachable from `node` along nodes that were not visited when it
      started. */
  lemma DfsVisitWhitePath(g: Graph, node: string, visited: seq<string>, p: seq<string>)
    requires Adjacency(g) && node in g && node !in visited
    requires IsPath(g, p) && p[0] == node && forall i :: 0 <= i < |p| ==> p[i] !in visited
    ensures p[|p| - 1] in DfsVisit(g, node, visited)
  {
    var r := DfsVisit(g, node, visited);
    DfsVisitCloses(g, node, visited);
    PrefixIn(visited + [node], r);
    WhitePathInside(g, r, visited, p, |p| - 1);
  }

  lemma {:induction false} WhitePathInside(g: Graph, r: seq<string>, visited: seq<string>, p: seq<string>, i: nat)
    requires ClosedOver(g, r, visited) && IsPath(g, p) && p[0] in r && i < |p|
    requires forall k :: 0 <= k < |p| ==> p[k] !in visited
    ensures p[i] in r
  {
    if i > 0 {
      WhitePathInside(g, r, visited, p, i - 1);
      assert p[i] in Neighbors(g, p[i - 1]);
    }
  }

  /** `dfs(graph, start_node)` visits exactly the nodes reachable from the
      start, each once, starting with the start. */
  lemma DfsOrderReaches(g: Graph, start: string)
    requires Adjacency(g) && start in g
    ensures var order := DfsOrder(g, start);
      && |order| >= 1 && order[0] == start && NoDup(order)
      && forall x :: x in order <==> Reachable(g, start, x)
  {
    var order := DfsOrder(g, start);
    assert [] + [start] == [start];
    DfsVisitCloses(g, start, []);
    ReachableSelf(g, start);
    DfsVisitReaches(g, start, start, []);
    DfsVisitNoDup(g, start, []);
    PrefixIn([start], order);
    assert Closed(g, order);
    forall x | Reachable(g, start, x)
      ensures x in order
    {
      ClosedHoldsReachable(g, order, start, x);
    }
  }

  /** The steps `dfs` returns: the first is `[start]`, each later one adds
      one node not seen before, and the last holds exactly the nodes
      reachable from the start. */
  lemma DfsTrace(g: Graph, start: string)
    requires Adjacency(g) && start in g
    ensures var steps := VisitSnapshots(DfsOrder(g, start), 0);
      && |steps| >= 1 && steps[0] == [start]
      && (forall i :: 1 <= i < |steps| ==>
            exists x :: x !in steps[i - 1] && steps[i] == steps[i - 1] + [x])
      && forall x :: x in steps[|steps| - 1] <==> Reachable(g, start, x)
  {
    var order := DfsOrder(g, start);
    DfsOrderReaches(g, start);
    SnapshotsExtend(order, start);
    var steps := VisitSnapshots(order, 0);
    forall i | 1 <= i < |steps|
      ensures exists x :: x !in steps[i - 1] && steps[i] == steps[i - 1] + [x]
    {
      var x := order[i];
      assert x !in steps[i - 1] && steps[i] == steps[i - 1] + [x];
    }
  }

  /** Test.py's and code.py's `dfs(graph, start_node)`; a start node not in
      the graph makes `graph.neighbors` raise. */
  method Dfs(g: Graph, start: string) returns (r: Outcome)
    requires Adjacency(g)
    ensures start !in g ==> r == UnknownNode(start)
    ensures start in g ==> r == Steps(VisitSnapshots(DfsOrder(g, start), 0))
  {
    if start !in g {
      return UnknownNode(start);
    }
    var visited, steps := DfsFrom(g, start, [], []);
    return Steps(steps);
  }

  /** `dfs(graph, node, visited, steps)` for a node not yet visited: it
      appends `node` to `visited`, records the snapshot, and recurses into
      each unvisited neighbour in turn. */
  method DfsFrom(g: Graph, node: string, visited0: seq<string>, steps0: seq<seq<string>>)
    returns (visited: seq<string>, steps: seq<seq<string>>)
    requires Adjacency(g) && node in g && node !in visited0
    ensures visited == DfsVisit(g, node, visited0)
    ensures steps == steps0 + VisitSnapshots(visited, |visited0|)
    decreases Unvisited(g, visited0), 1
  {
    visited := visited0 + [node];
    steps := steps0 + [visited];
    VisitSnapshotsLast(visited, |visited0|);
    UnvisitedShrinks(g, visited0, node);
    ghost var ns := Neighbors(g, node);
    assert ns[0..] == ns;
    for k := 0 to |g[node]|
      invariant DfsEach(g, ns[k..], visited) == DfsVisit(g, node, visited0)
      invariant visited0 + [node] <= visited
      invariant Unvisited(g, visited) < Unvisited(g, visited0)
      invariant steps == steps0 + VisitSnapshots(visited, |visited0|)
    {
      assert ns[k..][1..] == ns[k + 1..];
      ghost var before, stepsBefore := visited, steps;
      visited, steps := DfsNeighbor(g, g[node][k].to, visited, steps);
      assert DfsEach(g, ns[k..], before) == DfsEach(g, ns[k + 1..], visited);
      PrefixIn(before, visited);
      UnvisitedMonotone(g, before, visited);
      VisitSnapshotsChain(steps0, stepsBefore, steps, |visited0|, before, visited);
    }
    assert ns[|g[node]|..] == [];
  }

  /** One round of the loop in `dfs`: `if neighbor not in visited:
      dfs(graph, neighbor, visited, steps)`. */
  method DfsNeighbor(g: Graph, neighbor: string, visited0: seq<string>, steps0: seq<seq<string>>)
    returns (visited: seq<string>, steps: seq<seq<string>>)
    requires Adjacency(g) && neighbor in g
    ensures visited == if neighbor in visited0 then visited0 else DfsVisit(g, neighbor, visited0)
    ensures visited0 <= visited
    ensures steps == steps0 + VisitSnapshots(visited, |visited0|)
    decreases Unvisited(g, visited0), 2
  {
    if neighbor !in visited0 {
      visited, steps := DfsFrom(g, neighbor, visited0, steps0);
    } else {
      visited, steps := visited0, steps0;
      assert VisitSnapshots(visited, |visited0|) == [];
    }
  }
}
