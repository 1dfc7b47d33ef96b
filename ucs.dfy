/** `ucs(graph, start_node)` of Test.py and code.py (the two are the same).
    The heap is kept as the list of pushed pairs; `heapq.heappop` takes its
    least pair in Python's tuple order, whatever the heap's layout. */
module UniformCost {
  import opened Graphs

  /** Python's `<` on strings: code point by code point, a proper prefix
      first. */
  predicate StrLess(a: string, b: string)
    ensures StrLess(a, b) ==> a != b
    ensures a < b ==> StrLess(a, b)
    decreases |a|
  {
    if a == [] then b != []
    else if b == [] then false
    else if a[0] != b[0] then a[0] < b[0]
    else StrLess(a[1..], b[1..])
  }

  lemma {:induction false} StrLessIrreflexive(a: string)
    ensures !StrLess(a, a)
    decreases |a|
  {
    if a != [] {
      StrLessIrreflexive(a[1..]);
    }
  }

  lemma {:induction false} StrLessTransitive(a: string, b: string, c: string)
    requires StrLess(a, b) && StrLess(b, c)
    ensures StrLess(a, c)
    decreases |a|
  {
    if a != [] && a[0] == b[0] && b[0] == c[0] {
      StrLessTransitive(a[1..], b[1..], c[1..]);
    }
  }

  lemma {:induction false} StrLessTotal(a: string, b: string)
    requires a != b
    ensures StrLess(a, b) || StrLess(b, a)
    decreases |a|
  {
    if a != [] && b != [] && a[0] == b[0] {
      assert a == [a[0]] + a[1..] && b == [b[0]] + b[1..];
      StrLessTotal(a[1..], b[1..]);
    }
  }

  /** A heap entry `(cost, node)`. */
  datatype Entry = Entry(cost: int, node: string)

  /** Python's `<` on `(cost, node)` tuples. */
  predicate EntryLess(x: Entry, y: Entry)
    ensures EntryLess(x, y) ==> x != y
    ensures x.cost < y.cost ==> EntryLess(x, y)
    ensures EntryLess(x, y) ==> x.cost <= y.cost
  {
    x.cost < y.cost || (x.cost == y.cost && StrLess(x.node, y.node))
  }

  /** At most, in that order: not greater. */
  lemma EntryOrder(x: Entry, y: Entry, z: Entry)
    ensures !EntryLess(x, x)
    ensures x != y ==> EntryLess(x, y) || EntryLess(y, x)
    ensures EntryLess(x, y) && EntryLess(y, z) ==> EntryLess(x, z)
    ensures !EntryLess(y, x) && !EntryLess(z, y) ==> !EntryLess(z, x)
  {
    StrLessIrreflexive(x.node);
    if x != y && x.cost == y.cost {
      StrLessTotal(x.node, y.node);
    }
    if EntryLess(x, y) && EntryLess(y, z) && x.cost == y.cost == z.cost {
      StrLessTransitive(x.node, y.node, z.node);
    }
    if !EntryLess(y, x) && !EntryLess(z, y) && EntryLess(z, x) {
      if y != x && x.cost == y.cost {
        StrLessTotal(x.node, y.node);
      }
      if z != y && y.cost == z.cost {
        StrLessTotal(y.node, z.node);
      }
      if x.cost == y.cost == z.cost && x != y && z != y {
        StrLessTransitive(x.node, y.node, z.node);
        StrLessTransitive(z.node, x.node, y.node);
      }
    }
  }

  /** Where `heapq.heappop` finds the pair it returns. */
  function LeastAt(h: seq<Entry>): (m: nat)
    requires h != []
    ensures m < |h|
    decreases |h|
  {
    if |h| == 1 then 0
    else
      var m := 1 + LeastAt(h[1..]);
      if EntryLess(h[m], h[0]) then m else 0
  }

  /** `heapq.heappop` returns a least pair of the heap. */
  lemma {:induction false} LeastAtIsLeast(h: seq<Entry>)
    requires h != []
    ensures forall k :: 0 <= k < |h| ==> !EntryLess(h[k], h[LeastAt(h)])
    decreases |h|
  {
    if |h| > 1 {
      var m := 1 + LeastAt(h[1..]);
      assert LeastAt(h) == if EntryLess(h[m], h[0]) then m else 0;
      LeastAtIsLeast(h[1..]);
      assert h[m] == h[1..][LeastAt(h[1..])];
      forall k | 0 <= k < |h|
        ensures !EntryLess(h[k], h[LeastAt(h)])
      {
        EntryOrder(h[k], h[m], h[0]);
        EntryOrder(h[0], h[m], h[k]);
        if k > 0 {
          assert h[k] == h[1..][k - 1];
        }
      }
    } else {
      EntryOrder(h[0], h[0], h[0]);
    }
  }

  /** The heap once `heapq.heappop` has taken `h[m]`. */
  function Without(h: seq<Entry>, m: nat): (r: seq<Entry>)
    requires m < |h|
    ensures |r| == |h| - 1
    ensures forall x :: x in h && x != h[m] ==> x in r
    ensures forall x :: x in r ==> x in h
  {
    h[..m] + h[m + 1..]
  }

  /** Every pair in the heap names a node of the graph. */
  predicate InGraph(g: Graph, heap: seq<Entry>)
  {
    forall x :: x in heap ==> x.node in g
  }

  /** The costs dict and the heap after relaxing some edges. */
  datatype Relaxed = Relaxed(costs: map<string, int>, heap: seq<Entry>)

  /** `for neighbor in graph.neighbors(node)`, from the `k`-th neighbour on:
      `new_cost = cost + edge_weight`, and when the neighbour has no cost
      yet or `new_cost` is strictly lower, record it and push
      `(new_cost, neighbor)`. */
  function RelaxFrom(g: Graph, node: string, k: nat, cost: int, costs: map<string, int>, heap: seq<Entry>): (r: Relaxed)
    requires node in g && k <= |g[node]|
    ensures heap <= r.heap && costs.Keys <= r.costs.Keys
    ensures forall i :: |heap| <= i < |r.heap| ==> r.heap[i].node in Neighbors(g, node)
    decreases |g[node]| - k
  {
    if k == |g[node]| then Relaxed(costs, heap)
    else
      var e := g[node][k];
      var n, c := e.to, cost + WeightOf(e);
      assert n == Neighbors(g, node)[k];
      if n !in costs || c < costs[n] then RelaxFrom(g, node, k + 1, cost, costs[n := c], heap + [Entry(c, n)])
      else RelaxFrom(g, node, k + 1, cost, costs, heap)
  }

  /** The heap after relaxing names only nodes of the graph. */
  lemma RelaxInGraph(g: Graph, node: string, cost: int, costs: map<string, int>, heap: seq<Entry>)
    requires Adjacency(g) && node in g && InGraph(g, heap)
    ensures InGraph(g, RelaxFrom(g, node, 0, cost, costs, heap).heap)
  {
    var r := RelaxFrom(g, node, 0, cost, costs, heap);
    forall x | x in r.heap
      ensures x.node in g
    {
      var i :| 0 <= i < |r.heap| && r.heap[i] == x;
      if i < |heap| {
        assert x == heap[i];
      }
    }
  }

  /** What the loop `while queue:` leaves: the visit order, and every pair
      it popped, in order. */
  datatype UcsRun = UcsRun(order: seq<string>, popped: seq<Entry>)

  /** The loop `while queue:` with the given heap, costs and visited list:
      pop the least pair; a node already visited is skipped; otherwise
      visit it, record the step and relax its edges. */
  function UcsLoop(g: Graph, heap: seq<Entry>, costs: map<string, int>, visited: seq<string>): (r: UcsRun)
    requires Adjacency(g) && InGraph(g, heap)
    ensures visited <= r.order && |r.popped| >= |heap|
    decreases Unvisited(g, visited), |heap|, 1
  {
    if heap == [] then UcsRun(visited, []) else UcsPop(g, heap, costs, visited)
  }

  /** One round of that loop on a non-empty heap. */
  function UcsPop(g: Graph, heap: seq<Entry>, costs: map<string, int>, visited: seq<string>): (r: UcsRun)
    requires Adjacency(g) && InGraph(g, heap) && heap != []
    ensures visited <= r.order && |r.popped| >= |heap|
    decreases Unvisited(g, visited), |heap|, 0
  {
    var e := heap[LeastAt(heap)];
    var rest := Without(heap, LeastAt(heap));
    if e.node in visited then
      var r := UcsLoop(g, rest, costs, visited);
      UcsRun(r.order, [e] + r.popped)
    else
      var rl := RelaxFrom(g, e.node, 0, e.cost, costs, rest);
      RelaxInGraph(g, e.node, e.cost, costs, rest);
      UnvisitedShrinks(g, visited, e.node);
      var r := UcsLoop(g, rl.heap, rl.costs, visited + [e.node]);
      UcsRun(r.order, [e] + r.popped)
  }

  /** The loop from `queue = [(0, start_node)]`, `costs = {start_node: 0}`. */
  function UcsFrom(g: Graph, start: string): (r: UcsRun)
    requires Adjacency(g) && start in g
    ensures |r.order| >= 1 && r.order[0] == start
    ensures |r.popped| >= 1 && r.popped[0] == Entry(0, start)
  {
    var h, costs := [Entry(0, start)], map[start := 0];
    assert LeastAt(h) == 0 && Without(h, 0) == [] && [] + [start] == [start];
    assert UcsLoop(g, h, costs, []) == UcsPop(g, h, costs, []);
    UcsLoop(g, h, costs, [])
  }

  /** The order in which `ucs(graph, start_node)` visits the nodes. */
  function UcsOrder(g: Graph, start: string): (order: seq<string>)
    requires Adjacency(g) && start in g
    ensures |order| >= 1 && order[0] == start
  {
    UcsFrom(g, start).order
  }

  /** Relaxing leaves each recorded cost either as it was or with its pair
      pushed. */
  lemma {:induction false} RelaxRecords(g: Graph, node: string, k: nat, cost: int, costs: map<string, int>, heap: seq<Entry>)
    requires node in g && k <= |g[node]|
    ensures var r := RelaxFrom(g, node, k, cost, costs, heap);
      forall w :: w in r.costs ==> (w in costs && r.costs[w] == costs[w]) || Entry(r.costs[w], w) in r.heap
    decreases |g[node]| - k
  {
    if k < |g[node]| {
      var e := g[node][k];
      var n, c := e.to, cost + WeightOf(e);
      var r := RelaxFrom(g, node, k, cost, costs, heap);
      if n !in costs || c < costs[n] {
        var costs', heap' := costs[n := c], heap + [Entry(c, n)];
        RelaxRecords(g, node, k + 1, cost, costs', heap');
        assert r == RelaxFrom(g, node, k + 1, cost, costs', heap');
        PrefixHas(heap', r.heap, Entry(c, n));
      } else {
        assert r == RelaxFrom(g, node, k + 1, cost, costs, heap);
        RelaxRecords(g, node, k + 1, cost, costs, heap);
      }
    }
  }

  lemma PrefixHas(a: seq<Entry>, b: seq<Entry>, x: Entry)
    requires a <= b && x in a
    ensures x in b
  {
    var i :| 0 <= i < |a| && a[i] == x;
    assert b[i] == x;
  }

  /** The relaxation rule, stated per edge: with the neighbours of `node`
      all different, the `j`-th neighbour ends with cost `c = cost + weight`
      (the weight defaulting to 1) if it had none or `c` is strictly lower,
      and with its old cost otherwise. */
  lemma {:induction false} RelaxCosts(g: Graph, node: string, k: nat, cost: int, costs: map<string, int>, heap: seq<Entry>)
    requires Adjacency(g) && node in g && k <= |g[node]|
    ensures var r := RelaxFrom(g, node, k, cost, costs, heap);
      forall j :: k <= j < |g[node]| ==>
        var n, c := g[node][j].to, cost + WeightOf(g[node][j]);
        n in r.costs && r.costs[n] == if Improves(g, node, j, cost, costs) then c else costs[n]
    decreases |g[node]| - k
  {
    if k < |g[node]| {
      var e := g[node][k];
      var n, c := e.to, cost + WeightOf(e);
      if n !in costs || c < costs[n] {
        var costs', heap' := costs[n := c], heap + [Entry(c, n)];
        assert RelaxFrom(g, node, k, cost, costs, heap) == RelaxFrom(g, node, k + 1, cost, costs', heap');
        RelaxCosts(g, node, k + 1, cost, costs', heap');
        RelaxKeepsOthers(g, node, k + 1, cost, costs', heap', n);
        ImprovesElsewhere(g, node, k, cost, costs, c);
      } else {
        assert RelaxFrom(g, node, k, cost, costs, heap) == RelaxFrom(g, node, k + 1, cost, costs, heap);
        RelaxCosts(g, node, k + 1, cost, costs, heap);
        RelaxKeepsOthers(g, node, k + 1, cost, costs, heap, n);
      }
    }
  }

  /** A node that is not among the neighbours from `k` on keeps its cost,
      or its absence of one. */
  lemma {:induction false} RelaxKeepsOthers(g: Graph, node: string, k: nat, cost: int, costs: map<string, int>, heap: seq<Entry>, w: string)
    requires Adjacency(g) && node in g && k <= |g[node]|
    requires forall j :: k <= j < |g[node]| ==> g[node][j].to != w
    ensures var r := RelaxFrom(g, node, k, cost, costs, heap);
      (w in r.costs <==> w in costs) && (w in costs ==> r.costs[w] == costs[w])
    decreases |g[node]| - k
  {
    if k < |g[node]| {
      var e := g[node][k];
      var n, c := e.to, cost + WeightOf(e);
      if n !in costs || c < costs[n] {
        assert RelaxFrom(g, node, k, cost, costs, heap) == RelaxFrom(g, node, k + 1, cost, costs[n := c], heap + [Entry(c, n)]);
        RelaxKeepsOthers(g, node, k + 1, cost, costs[n := c], heap + [Entry(c, n)], w);
      } else {
        assert RelaxFrom(g, node, k, cost, costs, heap) == RelaxFrom(g, node, k + 1, cost, costs, heap);
        RelaxKeepsOthers(g, node, k + 1, cost, costs, heap, w);
      }
    }
  }

  /** A pair is pushed only for a neighbour whose cost improves: every
      pushed pair is `(cost + weight, neighbor)` for a neighbour that had no
      cost or a strictly higher one. */
  lemma {:induction false} RelaxPushesOnly(g: Graph, node: string, k: nat, cost: int, costs: map<string, int>, heap: seq<Entry>)
    requires Adjacency(g) && node in g && k <= |g[node]|
    ensures var r := RelaxFrom(g, node, k, cost, costs, heap);
      forall x :: x in r.heap[|heap|..] ==>
        exists j :: k <= j < |g[node]| && Improves(g, node, j, cost, costs)
          && x == Entry(cost + WeightOf(g[node][j]), g[node][j].to)
    decreases |g[node]| - k
  {
    if k < |g[node]| {
      var e := g[node][k];
      var n, c := e.to, cost + WeightOf(e);
      var r := RelaxFrom(g, node, k, cost, costs, heap);
      if n !in costs || c < costs[n] {
        var costs', heap' := costs[n := c], heap + [Entry(c, n)];
        assert r == RelaxFrom(g, node, k + 1, cost, costs', heap');
        RelaxPushesOnly(g, node, k + 1, cost, costs', heap');
        ImprovesElsewhere(g, node, k, cost, costs, c);
        assert heap' <= r.heap;
        assert r.heap[|heap|..] == [Entry(c, n)] + r.heap[|heap'|..];
        assert Improves(g, node, k, cost, costs);
      } else {
        assert r == RelaxFrom(g, node, k + 1, cost, costs, heap);
        RelaxPushesOnly(g, node, k + 1, cost, costs, heap);
      }
    }
  }

  /** Every neighbour whose cost improves has its pair
      `(cost + weight, neighbor)` pushed. */
  lemma {:induction false} RelaxPushesAll(g: Graph, node: string, k: nat, cost: int, costs: map<string, int>, heap: seq<Entry>)
    requires Adjacency(g) && node in g && k <= |g[node]|
    ensures var r := RelaxFrom(g, node, k, cost, costs, heap);
      forall j :: k <= j < |g[node]| && Improves(g, node, j, cost, costs) ==>
        Entry(cost + WeightOf(g[node][j]), g[node][j].to) in r.heap[|heap|..]
    decreases |g[node]| - k
  {
    if k < |g[node]| {
      var e := g[node][k];
      var n, c := e.to, cost + WeightOf(e);
      var r := RelaxFrom(g, node, k, cost, costs, heap);
      if n !in costs || c < costs[n] {
        var costs', heap' := costs[n := c], heap + [Entry(c, n)];
        assert r == RelaxFrom(g, node, k + 1, cost, costs', heap');
        RelaxPushesAll(g, node, k + 1, cost, costs', heap');
        ImprovesElsewhere(g, node, k, cost, costs, c);
        assert heap' <= r.heap;
        PushedSuffix(r.heap, heap, Entry(c, n));
      } else {
        assert r == RelaxFrom(g, node, k + 1, cost, costs, heap);
        RelaxPushesAll(g, node, k + 1, cost, costs, heap);
      }
    }
  }

  /** After pushing `x` onto `heap`, a heap extending the result holds `x`
      and everything pushed later among what was pushed since `heap`. */
  lemma PushedSuffix(h: seq<Entry>, heap: seq<Entry>, x: Entry)
    requires heap + [x] <= h
    ensures x in h[|heap|..]
    ensures forall y :: y in h[|heap| + 1..] ==> y in h[|heap|..]
  {
    assert h[|heap|..] == [x] + h[|heap| + 1..];
  }

  /** `new_cost < costs[neighbor]` or no cost yet, for the `j`-th neighbour. */
  predicate Improves(g: Graph, node: string, j: nat, cost: int, costs: map<string, int>)
    requires node in g && j < |g[node]|
    ensures g[node][j].to !in costs ==> Improves(g, node, j, cost, costs)
    ensures !Improves(g, node, j, cost, costs) ==>
      g[node][j].to in costs && costs[g[node][j].to] <= cost + WeightOf(g[node][j])
  {
    var n, c := g[node][j].to, cost + WeightOf(g[node][j]);
    n !in costs || c < costs[n]
  }

  /** Recording the `k`-th neighbour's cost does not change whether a later
      neighbour improves. */
  lemma ImprovesElsewhere(g: Graph, node: string, k: nat, cost: int, costs: map<string, int>, c: int)
    requires Adjacency(g) && node in g && k < |g[node]|
    ensures forall j :: k < j < |g[node]| ==>
      Improves(g, node, j, cost, costs[g[node][k].to := c]) == Improves(g, node, j, cost, costs)
  {
    assert forall j :: k < j < |g[node]| ==> g[node][j].to != g[node][k].to;
  }

  /** What holds at the top of each round of `while queue:`: every node
      with a recorded cost is visited or has its pair `(cost, node)` in the
      heap; every neighbour of a visited node has a cost; and everything
      visited or queued was reached from the start. */
  ghost predicate UcsInv(g: Graph, start: string, heap: seq<Entry>, costs: map<string, int>, visited: seq<string>)
  {
    && Adjacency(g) && InGraph(g, heap) && start in costs
    && Pending(heap, costs, visited)
    && (forall x :: x in visited ==> x in g && forall y :: y in Neighbors(g, x) ==> y in costs)
    && (forall x :: x in visited ==> Reachable(g, start, x))
    && (forall x :: x in heap ==> Reachable(g, start, x.node))
  }

  predicate Pending(heap: seq<Entry>, costs: map<string, int>, visited: seq<string>)
  {
    forall w :: w in costs ==> w in visited || Entry(costs[w], w) in heap
  }

  /** Skipping a stale pair keeps the invariant. */
  lemma StaleKeeps(g: Graph, start: string, heap: seq<Entry>, costs: map<string, int>, visited: seq<string>)
    requires UcsInv(g, start, heap, costs, visited) && heap != []
    requires heap[LeastAt(heap)].node in visited
    ensures UcsInv(g, start, Without(heap, LeastAt(heap)), costs, visited)
  {
  }

  /** Visiting a fresh node and relaxing its edges keeps the invariant. */
  lemma VisitKeeps(g: Graph, start: string, heap: seq<Entry>, costs: map<string, int>, visited: seq<string>)
    requires UcsInv(g, start, heap, costs, visited) && heap != []
    requires heap[LeastAt(heap)].node !in visited
    ensures var e := heap[LeastAt(heap)];
      var rl := RelaxFrom(g, e.node, 0, e.cost, costs, Without(heap, LeastAt(heap)));
      UcsInv(g, start, rl.heap, rl.costs, visited + [e.node])
  {
    var e := heap[LeastAt(heap)];
    var rest := Without(heap, LeastAt(heap));
    var rl := RelaxFrom(g, e.node, 0, e.cost, costs, rest);
    var v := visited + [e.node];
    RelaxInGraph(g, e.node, e.cost, costs, rest);
    RelaxRecords(g, e.node, 0, e.cost, costs, rest);
    RelaxCosts(g, e.node, 0, e.cost, costs, rest);
    forall w | w in rl.costs
      ensures w in v || Entry(rl.costs[w], w) in rl.heap
    {
      if Entry(rl.costs[w], w) !in rl.heap {
        assert w in costs && rl.costs[w] == costs[w];
        if w !in visited && w != e.node {
          PrefixHas(rest, rl.heap, Entry(costs[w], w));
        }
      }
    }
    forall x | x in v
      ensures x in g && forall y :: y in Neighbors(g, x) ==> y in rl.costs
    {
    }
    assert Reachable(g, start, e.node);
    forall x | x in rl.heap
      ensures Reachable(g, start, x.node)
    {
      var i :| 0 <= i < |rl.heap| && rl.heap[i] == x;
      if i < |rest| {
        assert x == rest[i];
      } else {
        ReachableStep(g, start, e.node, x.node);
      }
    }
  }

  /** The visit order is closed under neighbours, holds the start, and
      holds only nodes reached from the start. */
  lemma {:induction false} UcsLoopCloses(g: Graph, start: string, heap: seq<Entry>, costs: map<string, int>, visited: seq<string>)
    requires UcsInv(g, start, heap, costs, visited)
    ensures var order := UcsLoop(g, heap, costs, visited).order;
      && Closed(g, order) && start in order
      && forall x :: x in order ==> Reachable(g, start, x)
    decreases Unvisited(g, visited), |heap|
  {
    if heap != [] {
      var e := heap[LeastAt(heap)];
      var rest := Without(heap, LeastAt(heap));
      assert UcsLoop(g, heap, costs, visited) == UcsPop(g, heap, costs, visited);
      if e.node in visited {
        StaleKeeps(g, start, heap, costs, visited);
        UcsLoopCloses(g, start, rest, costs, visited);
      } else {
        var rl := RelaxFrom(g, e.node, 0, e.cost, costs, rest);
        VisitKeeps(g, start, heap, costs, visited);
        UnvisitedShrinks(g, visited, e.node);
        UcsLoopCloses(g, start, rl.heap, rl.costs, visited + [e.node]);
      }
    }
  }

  /** The visited list only grows, by nodes not in it. */
  lemma {:induction false} UcsLoopNoDup(g: Graph, heap: seq<Entry>, costs: map<string, int>, visited: seq<string>)
    requires Adjacency(g) && InGraph(g, heap) && NoDup(visited)
    ensures var order := UcsLoop(g, heap, costs, visited).order;
      visited <= order && NoDup(order)
    decreases Unvisited(g, visited), |heap|
  {
    if heap != [] {
      var e := heap[LeastAt(heap)];
      var rest := Without(heap, LeastAt(heap));
      assert UcsLoop(g, heap, costs, visited) == UcsPop(g, heap, costs, visited);
      if e.node in visited {
        UcsLoopNoDup(g, rest, costs, visited);
      } else {
        var rl := RelaxFrom(g, e.node, 0, e.cost, costs, rest);
        RelaxInGraph(g, e.node, e.cost, costs, rest);
        UnvisitedShrinks(g, visited, e.node);
        UcsLoopNoDup(g, rl.heap, rl.costs, visited + [e.node]);
      }
    }
  }

  /** The visited list that popping `popped` in turn leaves when each pop
      of a node already visited is skipped. */
  function FirstVisits(visited: seq<string>, popped: seq<Entry>): seq<string>
    decreases |popped|
  {
    if popped == [] then visited
    else FirstVisits(if popped[0].node in visited then visited else visited + [popped[0].node], popped[1..])
  }

  /** Stale pairs are skipped without a step: the visit order is the
      popped nodes, each kept at its first pop only. */
  lemma {:induction false} UcsSkipsStale(g: Graph, heap: seq<Entry>, costs: map<string, int>, visited: seq<string>)
    requires Adjacency(g) && InGraph(g, heap)
    ensures var r := UcsLoop(g, heap, costs, visited);
      r.order == FirstVisits(visited, r.popped)
    decreases Unvisited(g, visited), |heap|
  {
    if heap != [] {
      var e := heap[LeastAt(heap)];
      var rest := Without(heap, LeastAt(heap));
      var r := UcsLoop(g, heap, costs, visited);
      assert r == UcsPop(g, heap, costs, visited);
      if e.node in visited {
        UcsSkipsStale(g, rest, costs, visited);
        assert r.popped[1..] == UcsLoop(g, rest, costs, visited).popped;
      } else {
        var rl := RelaxFrom(g, e.node, 0, e.cost, costs, rest);
        RelaxInGraph(g, e.node, e.cost, costs, rest);
        UnvisitedShrinks(g, visited, e.node);
        UcsSkipsStale(g, rl.heap, rl.costs, visited + [e.node]);
        assert r.popped[1..] == UcsLoop(g, rl.heap, rl.costs, visited + [e.node]).popped;
      }
    }
  }

  /** With positive weights every pair pushed while relaxing costs more
      than the pair just popped. */
  lemma {:induction false} RelaxCostsMore(g: Graph, node: string, k: nat, cost: int, costs: map<string, int>, heap: seq<Entry>)
    requires PositiveWeights(g) && node in g && k <= |g[node]|
    ensures forall x :: x in RelaxFrom(g, node, k, cost, costs, heap).heap ==> x in heap || x.cost > cost
    decreases |g[node]| - k
  {
    if k < |g[node]| {
      var e := g[node][k];
      var n, c := e.to, cost + WeightOf(e);
      if n !in costs || c < costs[n] {
        RelaxCostsMore(g, node, k + 1, cost, costs[n := c], heap + [Entry(c, n)]);
      } else {
        RelaxCostsMore(g, node, k + 1, cost, costs, heap);
      }
    }
  }

  /** Pairs come out of the heap in non-decreasing order. */
  predicate Ascending(popped: seq<Entry>)
  {
    forall i, j :: 0 <= i < j < |popped| ==> !EntryLess(popped[j], popped[i])
  }

  /** With positive weights, once no pair in the heap is below `low`, the
      pairs pop in non-decreasing order, none below `low`. */
  lemma {:induction false} UcsPopsAscend(g: Graph, heap: seq<Entry>, costs: map<string, int>, visited: seq<string>, low: Entry)
    requires Adjacency(g) && PositiveWeights(g) && InGraph(g, heap)
    requires forall x :: x in heap ==> !EntryLess(x, low)
    ensures var p := UcsLoop(g, heap, costs, visited).popped;
      Ascending(p) && forall i :: 0 <= i < |p| ==> !EntryLess(p[i], low)
    decreases Unvisited(g, visited), |heap|
  {
    if heap != [] {
      var m := LeastAt(heap);
      var e := heap[m];
      var rest := Without(heap, m);
      LeastAtIsLeast(heap);
      assert forall x :: x in rest ==> !EntryLess(x, e);
      var p := UcsLoop(g, heap, costs, visited).popped;
      assert UcsLoop(g, heap, costs, visited) == UcsPop(g, heap, costs, visited);
      var q;
      if e.node in visited {
        UcsPopsAscend(g, rest, costs, visited, e);
        q := UcsLoop(g, rest, costs, visited).popped;
      } else {
        var rl := RelaxFrom(g, e.node, 0, e.cost, costs, rest);
        RelaxInGraph(g, e.node, e.cost, costs, rest);
        RelaxCostsMore(g, e.node, 0, e.cost, costs, rest);
        UnvisitedShrinks(g, visited, e.node);
        UcsPopsAscend(g, rl.heap, rl.costs, visited + [e.node], e);
        q := UcsLoop(g, rl.heap, rl.costs, visited + [e.node]).popped;
      }
      assert p == [e] + q;
      AscendCons(e, q, low);
    }
  }

  lemma AscendCons(e: Entry, q: seq<Entry>, low: Entry)
    requires !EntryLess(e, low) && Ascending(q)
    requires forall i :: 0 <= i < |q| ==> !EntryLess(q[i], e)
    ensures var p := [e] + q;
      Ascending(p) && forall i :: 0 <= i < |p| ==> !EntryLess(p[i], low)
  {
    forall i | 0 <= i < |q|
      ensures !EntryLess(q[i], low)
    {
      EntryOrder(low, e, q[i]);
    }
  }

  /** `ucs(graph, start_node)` with positive weights: popped costs never
      decrease, and pairs of equal cost pop in node-name order. */
  lemma UcsPopOrder(g: Graph, start: string)
    requires Adjacency(g) && PositiveWeights(g) && start in g
    ensures var p := UcsFrom(g, start).popped;
      && |p| >= 1 && p[0] == Entry(0, start)
      && forall i, j :: 0 <= i < j < |p| ==>
           && p[i].cost <= p[j].cost
           && (p[i].cost == p[j].cost ==> p[i].node == p[j].node || StrLess(p[i].node, p[j].node))
  {
    var heap := [Entry(0, start)];
    StrLessIrreflexive(start);
    UcsPopsAscend(g, heap, map[start := 0], [], Entry(0, start));
    var p := UcsFrom(g, start).popped;
    assert UcsLoop(g, heap, map[start := 0], []) == UcsPop(g, heap, map[start := 0], []);
    forall i, j | 0 <= i < j < |p|
      ensures p[i].cost <= p[j].cost
      ensures p[i].cost == p[j].cost ==> p[i].node == p[j].node || StrLess(p[i].node, p[j].node)
    {
      if p[i].node != p[j].node {
        StrLessTotal(p[i].node, p[j].node);
      }
    }
  }

  /** `ucs(graph, start_node)` visits exactly the nodes reachable from the
      start, each once, starting with the start. */
  lemma UcsOrderReaches(g: Graph, start: string)
    requires Adjacency(g) && start in g
    ensures var order := UcsOrder(g, start);
      && |order| >= 1 && order[0] == start && NoDup(order)
      && forall x :: x in order <==> Reachable(g, start, x)
  {
    var heap, costs := [Entry(0, start)], map[start := 0];
    ReachableSelf(g, start);
    assert UcsInv(g, start, heap, costs, []);
    UcsLoopCloses(g, start, heap, costs, []);
    UcsLoopNoDup(g, heap, costs, []);
    var order := UcsOrder(g, start);
    UcsFirstVisit(g, start);
    forall x | Reachable(g, start, x)
      ensures x in order
    {
      ClosedHoldsReachable(g, order, start, x);
    }
  }

  /** The first pop is the start pair, which is visited first. */
  lemma UcsFirstVisit(g: Graph, start: string)
    requires Adjacency(g) && start in g
    ensures [start] <= UcsOrder(g, start)
  {
    var heap, costs := [Entry(0, start)], map[start := 0];
    assert UcsLoop(g, heap, costs, []) == UcsPop(g, heap, costs, []);
    assert LeastAt(heap) == 0 && Without(heap, 0) == [];
    var rl := RelaxFrom(g, start, 0, 0, costs, []);
    RelaxInGraph(g, start, 0, costs, []);
    assert [] + [start] == [start];
    assert UcsOrder(g, start) == UcsLoop(g, rl.heap, rl.costs, [start]).order;
    UcsLoopNoDup(g, rl.heap, rl.costs, [start]);
  }

  /** The steps `ucs` returns: the first is `[start]`, each later one adds
      one node not seen before, and the last holds exactly the nodes
      reachable from the start. */
  lemma UcsTrace(g: Graph, start: string)
    requires Adjacency(g) && start in g
    ensures var steps := VisitSnapshots(UcsOrder(g, start), 0);
      && |steps| >= 1 && steps[0] == [start]
      && (forall i :: 1 <= i < |steps| ==>
            exists x :: x !in steps[i - 1] && steps[i] == steps[i - 1] + [x])
      && forall x :: x in steps[|steps| - 1] <==> Reachable(g, start, x)
  {
    var order := UcsOrder(g, start);
    UcsOrderReaches(g, start);
    SnapshotsExtend(order, start);
    var steps := VisitSnapshots(order, 0);
    forall i | 1 <= i < |steps|
      ensures exists x :: x !in steps[i - 1] && steps[i] == steps[i - 1] + [x]
    {
      var x := order[i];
      assert x !in steps[i - 1] && steps[i] == steps[i - 1] + [x];
    }
  }

  /** Test.py's and code.py's `ucs`; a start node not in the graph makes
      `graph.neighbors` raise. */
  method Ucs(g: Graph, start: string) returns (r: Outcome)
    requires Adjacency(g)
    ensures start !in g ==> r == UnknownNode(start)
    ensures start in g ==> r == Steps(VisitSnapshots(UcsOrder(g, start), 0))
  {
    if start !in g {
      return UnknownNode(start);
    }
    var visited: seq<string> := [];
    var heap := [Entry(0, start)];
    var costs := map[start := 0];
    var steps: seq<seq<string>> := [];
    while heap != []
      invariant InGraph(g, heap)
      invariant UcsLoop(g, heap, costs, visited).order == UcsOrder(g, start)
      invariant steps == VisitSnapshots(visited, 0)
      decreases Unvisited(g, visited), |heap|
    {
      ghost var heap0, costs0, visited0 := heap, costs, visited;
      assert UcsLoop(g, heap, costs, visited) == UcsPop(g, heap, costs, visited);
      var m := LeastAt(heap);
      var entry := heap[m];
      heap := Without(heap, m);
      if entry.node !in visited {
        UnvisitedShrinks(g, visited, entry.node);
        VisitSnapshotsAppend(visited, entry.node);
        visited := visited + [entry.node];
        steps := steps + [visited];
        RelaxInGraph(g, entry.node, entry.cost, costs, heap);
        costs, heap := RelaxNeighbors(g, entry.node, entry.cost, costs, heap);
      }
    }
    return Steps(steps);
  }

  /** The inner loop of `ucs` over `graph.neighbors(node)`. */
  method RelaxNeighbors(g: Graph, node: string, cost: int, costs0: map<string, int>, heap0: seq<Entry>)
    returns (costs: map<string, int>, heap: seq<Entry>)
    requires node in g
    ensures Relaxed(costs, heap) == RelaxFrom(g, node, 0, cost, costs0, heap0)
  {
    costs, heap := costs0, heap0;
    for k := 0 to |g[node]|
      invariant RelaxFrom(g, node, k, cost, costs, heap) == RelaxFrom(g, node, 0, cost, costs0, heap0)
    {
      var neighbor := g[node][k].to;
      var newCost := cost + WeightOf(g[node][k]);
      if neighbor !in costs || newCost < costs[neighbor] {
        costs := costs[neighbor := newCost];
        heap := heap + [Entry(newCost, neighbor)];
      }
    }
  }
}
