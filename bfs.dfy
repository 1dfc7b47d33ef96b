/** `bfs(graph, start_node)` of Test.py and code.py (the two are the same). */
module BreadthFirst {
  import opened Graphs

  /** `for neighbor in graph.neighbors(node): if neighbor not in visited
      and neighbor not in queue: queue.append(neighbor)`: the queue grows at
      the back, only by neighbours in `ns`. */
  function EnqueueNew(ns: seq<string>, visited: seq<string>, queue: seq<string>): (r: seq<string>)
    ensures queue <= r
    ensures forall x :: x in r ==> x in queue || x in ns
    decreases |ns|
  {
    if ns == [] then queue
    else
      var q := if ns[0] !in visited && ns[0] !in queue then queue + [ns[0]] else queue;
      EnqueueNew(ns[1..], visited, q)
  }

  /** The loop `while queue:` with the given queue and visited list; the
      result is the visited list it ends with. */
  function BfsLoop(g: Graph, queue: seq<string>, visited: seq<string>): (order: seq<string>)
    requires Adjacency(g) && forall q :: q in queue ==> q in g
    ensures visited <= order
    decreases Unvisited(g, visited), |queue|
  {
    if queue == [] then visited
    else
      var node := queue[0];
      if node in visited then BfsLoop(g, queue[1..], visited)
      else
        var v := visited + [node];
        UnvisitedShrinks(g, visited, node);
        BfsLoop(g, EnqueueNew(Neighbors(g, node), v, queue[1..]), v)
  }

  /** The order in which `bfs(graph, start_node)` visits the nodes. */
  function BfsOrder(g: Graph, start: string): (order: seq<string>)
    requires Adjacency(g) && start in g
    ensures |order| >= 1 && order[0] == start
  {
    assert [] + [start] == [start];
    BfsLoop(g, [start], [])
  }

  /** Enqueueing only new neighbours keeps the visited list and the queue
      free of repeats, and leaves every neighbour visited or queued. */
  lemma {:induction false} EnqueueNewKeeps(ns: seq<string>, visited: seq<string>, queue: seq<string>)
    requires NoDup(visited + queue)
    ensures var r := EnqueueNew(ns, visited, queue);
      && NoDup(visited + r)
      && forall n :: n in ns ==> n in visited + r
    decreases |ns|
  {
    if ns != [] {
      var q := if ns[0] !in visited && ns[0] !in queue then queue + [ns[0]] else queue;
      assert visited + q == if q == queue then visited + queue else (visited + queue) + [ns[0]];
      EnqueueNewKeeps(ns[1..], visited, q);
      var r := EnqueueNew(ns[1..], visited, q);
      assert q <= r;
      forall n | n in ns
        ensures n in visited + r
      {
        if n != ns[0] {
          assert n in ns[1..];
        } else if q != queue {
          assert ns[0] == q[|q| - 1] == r[|q| - 1];
        }
      }
    }
  }

  /** What holds at the top of each round of `while queue:`: no node is
      queued twice or queued once visited; every neighbour of a visited node
      has been visited or queued; and every node seen was reached from the
      start. */
  ghost predicate BfsInv(g: Graph, start: string, queue: seq<string>, visited: seq<string>)
  {
    && Adjacency(g) && start in g
    && (forall q :: q in queue ==> q in g)
    && NoDup(visited + queue)
    && start in visited + queue
    && Frontier(g, queue, visited)
    && Reached(g, start, visited + queue)
  }

  /** Every neighbour of a visited node has been visited or queued. */
  predicate Frontier(g: Graph, queue: seq<string>, visited: seq<string>)
  {
    forall x :: x in visited ==> x in g && forall y :: y in Neighbors(g, x) ==> y in visited + queue
  }

  /** Every node of `seen` is reachable from the start. */
  ghost predicate Reached(g: Graph, start: string, seen: seq<string>)
  {
    forall x :: x in seen ==> Reachable(g, start, x)
  }

  /** The pop `node = queue.pop(0)` never finds a visited node, and the
      round keeps the invariant. */
  lemma BfsRoundKeeps(g: Graph, start: string, queue: seq<string>, visited: seq<string>)
    requires BfsInv(g, start, queue, visited) && queue != []
    ensures queue[0] !in visited
    ensures var v := visited + [queue[0]];
      BfsInv(g, start, EnqueueNew(Neighbors(g, queue[0]), v, queue[1..]), v)
  {
    var node := queue[0];
    NoDupSplit(visited, queue);
    assert visited + queue == (visited + [node]) + queue[1..];
    var v := visited + [node];
    var ns := Neighbors(g, node);
    var r := EnqueueNew(ns, v, queue[1..]);
    EnqueueNewKeeps(ns, v, queue[1..]);
    RoundSeen(visited + queue, v, queue[1..], r);
    RoundFrontier(g, queue, visited, r);
    RoundReached(g, start, queue, visited, r);
  }

  /** The visited list and the new queue hold everything seen before. */
  lemma RoundSeen(seen: seq<string>, v: seq<string>, rest: seq<string>, r: seq<string>)
    requires seen == v + rest && rest <= r
    ensures forall y :: y in seen ==> y in v + r
  {
  }

  lemma RoundFrontier(g: Graph, queue: seq<string>, visited: seq<string>, r: seq<string>)
    requires queue != [] && queue[0] in g && Frontier(g, queue, visited)
    requires forall y :: y in visited + queue ==> y in visited + [queue[0]] + r
    requires forall n :: n in Neighbors(g, queue[0]) ==> n in visited + [queue[0]] + r
    ensures Frontier(g, r, visited + [queue[0]])
  {
  }

  lemma RoundReached(g: Graph, start: string, queue: seq<string>, visited: seq<string>, r: seq<string>)
    requires queue != [] && queue[0] in g && Reached(g, start, visited + queue)
    requires forall x :: x in r ==> x in queue[1..] || x in Neighbors(g, queue[0])
    ensures Reached(g, start, visited + [queue[0]] + r)
  {
    var node := queue[0];
    assert Reachable(g, start, node);
    forall x | x in visited + [node] + r
      ensures Reachable(g, start, x)
    {
      if x in r && x !in queue[1..] {
        ReachableStep(g, start, node, x);
      } else {
        assert x in visited + queue;
      }
    }
  }

  /** FIFO order: the loop visits the nodes in the order they were queued,
      so the visited list followed by the queue is a prefix of the final
      visit order; with no node queued twice or queued once visited, that
      order has no repeats. */
  lemma {:induction false} BfsLoopFifo(g: Graph, queue: seq<string>, visited: seq<string>)
    requires Adjacency(g) && forall q :: q in queue ==> q in g
    requires NoDup(visited + queue)
    ensures var order := BfsLoop(g, queue, visited);
      visited + queue <= order && NoDup(order)
    decreases Unvisited(g, visited), |queue|
  {
    if queue == [] {
      assert visited + queue == visited;
    } else {
      var node := queue[0];
      NoDupSplit(visited, queue);
      var v := visited + [node];
      assert visited + queue == v + queue[1..];
      var r := EnqueueNew(Neighbors(g, node), v, queue[1..]);
      EnqueueNewKeeps(Neighbors(g, node), v, queue[1..]);
      UnvisitedShrinks(g, visited, node);
      FifoStep(g, queue, visited, r);
      BfsLoopFifo(g, r, v);
    }
  }

  /** One round of the FIFO argument, on the lists alone. */
  lemma FifoStep(g: Graph, queue: seq<string>, visited: seq<string>, r: seq<string>)
    requires Adjacency(g) && queue != [] && queue[0] in g && queue[0] !in visited
    requires forall q :: q in queue ==> q in g
    requires r == EnqueueNew(Neighbors(g, queue[0]), visited + [queue[0]], queue[1..])
    ensures BfsLoop(g, queue, visited) == BfsLoop(g, r, visited + [queue[0]])
    ensures forall q :: q in r ==> q in g
    ensures visited + queue <= visited + [queue[0]] + r
  {
    assert visited + queue == visited + [queue[0]] + queue[1..];
    assert queue[1..] <= r;
  }

  /** The visit order is closed under neighbours, holds the start, and
      holds only nodes reached from the start. */
  lemma {:induction false} BfsLoopCloses(g: Graph, start: string, queue: seq<string>, visited: seq<string>)
    requires BfsInv(g, start, queue, visited)
    ensures var order := BfsLoop(g, queue, visited);
      && Closed(g, order) && start in order
      && forall x :: x in order ==> Reachable(g, start, x)
    decreases Unvisited(g, visited), |queue|
  {
    if queue == [] {
      assert visited + queue == visited;
    } else {
      var node := queue[0];
      BfsRoundKeeps(g, start, queue, visited);
      var v := visited + [node];
      var r := EnqueueNew(Neighbors(g, node), v, queue[1..]);
      UnvisitedShrinks(g, visited, node);
      BfsLoopCloses(g, start, r, v);
      assert BfsLoop(g, queue, visited) == BfsLoop(g, r, v);
    }
  }

  /** `bfs(graph, start_node)` visits exactly the nodes reachable from the
      start, each once, starting with the start, in the order they were
      queued. */
  lemma BfsOrderReaches(g: Graph, start: string)
    requires Adjacency(g) && start in g
    ensures var order := BfsOrder(g, start);
      && |order| >= 1 && order[0] == start && NoDup(order)
      && forall x :: x in order <==> Reachable(g, start, x)
  {
    ReachableSelf(g, start);
    assert BfsInv(g, start, [start], []);
    BfsLoopFifo(g, [start], []);
    BfsLoopCloses(g, start, [start], []);
    var order := BfsOrder(g, start);
    assert [] + [start] == [start];
    forall x | Reachable(g, start, x)
      ensures x in order
    {
      ClosedHoldsReachable(g, order, start, x);
    }
  }

  /** The steps `bfs` returns: the first is `[start]`, each later one adds
      one node not seen before, and the last holds exactly the nodes
      reachable from the start. */
  lemma BfsTrace(g: Graph, start: string)
    requires Adjacency(g) && start in g
    ensures var steps := VisitSnapshots(BfsOrder(g, start), 0);
      && |steps| >= 1 && steps[0] == [start]
      && (forall i :: 1 <= i < |steps| ==>
            exists x :: x !in steps[i - 1] && steps[i] == steps[i - 1] + [x])
      && forall x :: x in steps[|steps| - 1] <==> Reachable(g, start, x)
  {
    var order := BfsOrder(g, start);
    BfsOrderReaches(g, start);
    SnapshotsExtend(order, start);
    var steps := VisitSnapshots(order, 0);
    forall i | 1 <= i < |steps|
      ensures exists x :: x !in steps[i - 1] && steps[i] == steps[i - 1] + [x]
    {
      var x := order[i];
      assert x !in steps[i - 1] && steps[i] == steps[i - 1] + [x];
    }
  }

  /** Test.py's and code.py's `bfs`; a start node not in the graph makes
      `graph.neighbors` raise. */
  method Bfs(g: Graph, start: string) returns (r: Outcome)
    requires Adjacency(g)
    ensures start !in g ==> r == UnknownNode(start)
    ensures start in g ==> r == Steps(VisitSnapshots(BfsOrder(g, start), 0))
  {
    if start !in g {
      return UnknownNode(start);
    }
    var visited: seq<string> := [];
    var queue := [start];
    var steps: seq<seq<string>> := [];
    while queue != []
      invariant forall q :: q in queue ==> q in g
      invariant BfsLoop(g, queue, visited) == BfsOrder(g, start)
      invariant steps == VisitSnapshots(visited, 0)
      decreases Unvisited(g, visited), |queue|
    {
      ghost var before, seen := queue, visited;
      var node := queue[0];
      queue := queue[1..];
      if node !in visited {
        UnvisitedShrinks(g, visited, node);
        VisitSnapshotsAppend(visited, node);
        visited := visited + [node];
        steps := steps + [visited];
        queue := EnqueueNeighbors(g, node, visited, queue);
        assert BfsLoop(g, before, seen) == BfsLoop(g, queue, visited);
      }
    }
    return Steps(steps);
  }

  /** The inner loop of `bfs` over `graph.neighbors(node)`. */
  method EnqueueNeighbors(g: Graph, node: string, visited: seq<string>, queue0: seq<string>)
    returns (queue: seq<string>)
    requires node in g
    ensures queue == EnqueueNew(Neighbors(g, node), visited, queue0)
  {
    ghost var ns := Neighbors(g, node);
    queue := queue0;
    for k := 0 to |g[node]|
      invariant EnqueueNew(ns[k..], visited, queue) == EnqueueNew(ns, visited, queue0)
    {
      var neighbor := g[node][k].to;
      assert ns[k..][1..] == ns[k + 1..];
      if neighbor !in visited && neighbor !in queue {
        queue := queue + [neighbor];
      }
    }
    assert ns[|g[node]|..] == [];
  }
}
