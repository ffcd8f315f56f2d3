/**
  * Breadth- and depth-first traversal of the playground's random graph
  * (components/DSAPlayground.tsx, lines 89-115) without the animation.
  * A graph is the `edges` list of each node, indexed by node id; the
  * traversals grow a `seen` set and record the order in which nodes enter
  * it (the successive `visited` sets the page shows).
  */
module Traversal {

  /** Every edge points at a node of the graph. */
  predicate ValidGraph(nodes: seq<seq<int>>) {
    forall v, i :: 0 <= v < |nodes| && 0 <= i < |nodes[v]| ==> 0 <= nodes[v][i] < |nodes|
  }

  /** A walk along edges: each step goes to a neighbour of the previous node. */
  predicate IsPath(nodes: seq<seq<int>>, p: seq<int>) {
    |p| >= 1 &&
    (forall i :: 0 <= i < |p| ==> 0 <= p[i] < |nodes|) &&
    (forall i :: 0 <= i < |p| - 1 ==> p[i + 1] in nodes[p[i]])
  }

  ghost predicate Reachable(nodes: seq<seq<int>>, s: int, v: int) {
    exists p :: IsPath(nodes, p) && p[0] == s && p[|p| - 1] == v
  }

  /** The nodes reachable from `s` through `edges`. */
  ghost function ReachableSet(nodes: seq<seq<int>>, s: int): set<int> {
    set v | 0 <= v < |nodes| && Reachable(nodes, s, v)
  }

  /** The nodes not yet seen. */
  function Unseen(n: nat, seen: set<int>): set<int> {
    set v | 0 <= v < n && v !in seen
  }

  predicate Distinct(s: seq<int>) {
    forall i, j :: 0 <= i < j < |s| ==> s[i] != s[j]
  }

  /** `order` lists `seen`, each node once. */
  predicate Lists(order: seq<int>, seen: set<int>) {
    Distinct(order) && (forall i :: 0 <= i < |order| ==> order[i] in seen) && (forall v :: v in seen ==> v in order)
  }

  /** Every neighbour of a node of `s` is in `s`. */
  predicate Closed(nodes: seq<seq<int>>, s: set<int>) {
    forall u, j :: u in s && 0 <= u < |nodes| && 0 <= j < |nodes[u]| ==> nodes[u][j] in s
  }

  lemma ReachableStart(nodes: seq<seq<int>>, s: int)
    requires 0 <= s < |nodes|
    ensures Reachable(nodes, s, s)
  {
    assert IsPath(nodes, [s]);
  }

  lemma ReachableStep(nodes: seq<seq<int>>, s: int, u: int, w: int)
    requires Reachable(nodes, s, u) && 0 <= u < |nodes| && w in nodes[u] && 0 <= w < |nodes|
    ensures Reachable(nodes, s, w)
  {
    var p :| IsPath(nodes, p) && p[0] == s && p[|p| - 1] == u;
    var q := p + [w];
    assert q[|q| - 2] == u;
    assert IsPath(nodes, q);
  }

  /** A set holding `s` and closed under edges holds everything reachable from `s`. */
  lemma ClosedHoldsReachable(nodes: seq<seq<int>>, s: int, c: set<int>)
    requires s in c && Closed(nodes, c)
    ensures ReachableSet(nodes, s) <= c
  {
    forall v | v in ReachableSet(nodes, s)
      ensures v in c
    {
      var p :| IsPath(nodes, p) && p[0] == s && p[|p| - 1] == v;
      PathStaysIn(nodes, p, c, |p| - 1);
    }
  }

  lemma {:induction false} PathStaysIn(nodes: seq<seq<int>>, p: seq<int>, c: set<int>, i: nat)
    requires IsPath(nodes, p) && p[0] in c && Closed(nodes, c) && i < |p|
    ensures p[i] in c
  {
    if i > 0 {
      PathStaysIn(nodes, p, c, i - 1);
      var u := p[i - 1];
      var j :| 0 <= j < |nodes[u]| && nodes[u][j] == p[i];
    }
  }

  /**
    * `bfs(start)`: drain a queue starting at `[start]`; a node already seen
    * is skipped, otherwise it enters `seen` and its unseen neighbours are
    * queued.
    */
  method Bfs(nodes: seq<seq<int>>, start: int) returns (seen: set<int>, order: seq<int>)
    requires ValidGraph(nodes) && 0 <= start < |nodes|
    ensures seen == ReachableSet(nodes, start)
    ensures Lists(order, seen)
  {
    seen, order := {}, [];
    var queue := [start];
    ReachableStart(nodes, start);
    while queue != []
      invariant forall i :: 0 <= i < |queue| ==> 0 <= queue[i] < |nodes| && Reachable(nodes, start, queue[i])
      invariant forall v :: v in seen ==> 0 <= v < |nodes| && Reachable(nodes, start, v)
      invariant forall u, j :: u in seen && 0 <= j < |nodes[u]| ==> nodes[u][j] in seen || nodes[u][j] in queue
      invariant start in seen || start in queue
      invariant Lists(order, seen)
      decreases Unseen(|nodes|, seen), |queue|
    {
      var current := queue[0];
      var rest := queue[1..];
      assert queue == [current] + rest;
      if current in seen {
        queue := rest;
        continue;
      }
      assert current in Unseen(|nodes|, seen);
      seen := seen + {current};
      order := order + [current];
      queue := Enqueue(nodes, start, current, seen, rest);
    }
    ClosedHoldsReachable(nodes, start, seen);
  }

  /** The `forEach` over the edges of `current`: queue each neighbour not yet seen. */
  method Enqueue(nodes: seq<seq<int>>, ghost start: int, current: int, seen: set<int>, queue: seq<int>)
    returns (queue': seq<int>)
    requires ValidGraph(nodes) && 0 <= current < |nodes| && Reachable(nodes, start, current)
    requires forall i :: 0 <= i < |queue| ==> 0 <= queue[i] < |nodes| && Reachable(nodes, start, queue[i])
    ensures forall i :: 0 <= i < |queue'| ==> 0 <= queue'[i] < |nodes| && Reachable(nodes, start, queue'[i])
    ensures forall x :: x in queue ==> x in queue'
    ensures forall j :: 0 <= j < |nodes[current]| ==> nodes[current][j] in seen || nodes[current][j] in queue'
  {
    queue' := queue;
    var edges := nodes[current];
    for k := 0 to |edges|
      invariant forall i :: 0 <= i < |queue'| ==> 0 <= queue'[i] < |nodes| && Reachable(nodes, start, queue'[i])
      invariant forall x :: x in queue ==> x in queue'
      invariant forall j :: 0 <= j < k ==> edges[j] in seen || edges[j] in queue'
    {
      if edges[k] !in seen {
        ReachableStep(nodes, start, current, edges[k]);
        queue' := queue' + [edges[k]];
      }
    }
  }

  /**
    * `visit(n)` of `dfs`: a node already seen returns at once; otherwise it
    * enters `seen` and each neighbour is visited in turn. Every node it adds
    * is reachable from `root` and has all its neighbours seen on return.
    */
  method Visit(nodes: seq<seq<int>>, ghost root: int, n: int, seen: set<int>, order: seq<int>)
    returns (seen': set<int>, order': seq<int>)
    requires ValidGraph(nodes) && 0 <= n < |nodes| && Reachable(nodes, root, n)
    requires Lists(order, seen)
    ensures seen <= seen' && n in seen' && Lists(order', seen')
    ensures forall v :: v in seen' - seen ==> 0 <= v < |nodes| && Reachable(nodes, root, v)
    ensures forall v, j :: v in seen' - seen && 0 <= j < |nodes[v]| ==> nodes[v][j] in seen'
    decreases Unseen(|nodes|, seen)
  {
    if n in seen {
      return seen, order;
    }
    seen', order' := seen + {n}, order + [n];
    var edges := nodes[n];
    for k := 0 to |edges|
      invariant seen + {n} <= seen' && Lists(order', seen')
      invariant forall v :: v in seen' - seen ==> 0 <= v < |nodes| && Reachable(nodes, root, v)
      invariant forall v, j :: v in seen' - seen - {n} && 0 <= j < |nodes[v]| ==> nodes[v][j] in seen'
      invariant forall j :: 0 <= j < k ==> edges[j] in seen'
    {
      ReachableStep(nodes, root, n, edges[k]);
      assert Unseen(|nodes|, seen') < Unseen(|nodes|, seen) by {
        assert n in Unseen(|nodes|, seen);
      }
      ghost var before := seen';
      seen', order' := Visit(nodes, root, edges[k], seen', order');
      assert forall v :: v in seen' - seen ==> v in before - seen || v in seen' - before;
    }
  }

  /** `dfs(start)`: `visit(start)` from an empty `seen`. */
  method Dfs(nodes: seq<seq<int>>, start: int) returns (seen: set<int>, order: seq<int>)
    requires ValidGraph(nodes) && 0 <= start < |nodes|
    ensures seen == ReachableSet(nodes, start)
    ensures Lists(order, seen)
  {
    ReachableStart(nodes, start);
    seen, order := Visit(nodes, start, start, {}, []);
    assert seen - {} == seen;
    assert seen <= ReachableSet(nodes, start);
    ClosedHoldsReachable(nodes, start, seen);
  }

  /**
    * The traversal panel's state: the graph, the `visited` set it shows and
    * the `runningRef` flag that makes a second traversal started during one
    * a no-op.
    */
  class GraphTraversal {
    var nodes: seq<seq<int>>
    var visited: set<int>
    var running: bool

    ghost predicate Valid()
      reads this
    {
      ValidGraph(nodes)
    }

    constructor(nodes: seq<seq<int>>)
      requires ValidGraph(nodes)
      ensures Valid() && this.nodes == nodes && visited == {} && !running
    {
      this.nodes := nodes;
      visited := {};
      running := false;
    }

    /**
      * `New Graph`: clears `visited` and shows a new graph, which is empty
      * when the typed node count is not positive. `runningRef` is kept.
      */
    method NewGraph(g: seq<seq<int>>)
      requires ValidGraph(g)
      modifies this
      ensures Valid() && nodes == g && visited == {} && running == old(running)
    {
      nodes := g;
      visited := {};
    }

    /**
      * `bfs(start)` with its `runningRef` guard. A start that is not a node
      * is entered into `visited` and then `nodes[start].edges` throws, so
      * `runningRef` is never cleared.
      */
    method RunBfs(start: int)
      requires Valid()
      modifies this
      ensures Valid() && nodes == old(nodes)
      ensures old(running) ==> visited == old(visited) && running
      ensures !old(running) && 0 <= start < |nodes| ==> visited == ReachableSet(nodes, start) && !running
      ensures !old(running) && !(0 <= start < |nodes|) ==> visited == {start} && running
    {
      if running {
        return;
      }
      running := true;
      if 0 <= start < |nodes| {
        var seen, order := Bfs(nodes, start);
        visited := seen;
        running := false;
      } else {
        visited := {start};
      }
    }

    /** `dfs(start)` with its `runningRef` guard; a start that is not a node throws as in `RunBfs`. */
    method RunDfs(start: int)
      requires Valid()
      modifies this
      ensures Valid() && nodes == old(nodes)
      ensures old(running) ==> visited == old(visited) && running
      ensures !old(running) && 0 <= start < |nodes| ==> visited == ReachableSet(nodes, start) && !running
      ensures !old(running) && !(0 <= start < |nodes|) ==> visited == {start} && running
    {
      if running {
        return;
      }
      running := true;
      if 0 <= start < |nodes| {
        var seen, order := Dfs(nodes, start);
        visited := seen;
        running := false;
      } else {
        visited := {start};
      }
    }

    /**
      * `bfs(start)` releasing `runningRef` however the traversal ends, as in
      * a `try … finally`: a guarded call still changes nothing.
      */
    method RunBfsReleasing(start: int)
      requires Valid()
      modifies this
      ensures Valid() && nodes == old(nodes)
      ensures old(running) ==> visited == old(visited) && running
      ensures !old(running) ==> !running
      ensures !old(running) ==> visited == if 0 <= start < |nodes| then ReachableSet(nodes, start) else {start}
    {
      if running {
        return;
      }
      RunBfs(start);
      running := false;
    }

    /** `dfs(start)` releasing `runningRef` however the traversal ends. */
    method RunDfsReleasing(start: int)
      requires Valid()
      modifies this
      ensures Valid() && nodes == old(nodes)
      ensures old(running) ==> visited == old(visited) && running
      ensures !old(running) ==> !running
      ensures !old(running) ==> visited == if 0 <= start < |nodes| then ReachableSet(nodes, start) else {start}
    {
      if running {
        return;
      }
      RunDfs(start);
      running := false;
    }
  }

  /** In a one-node graph without edges only the node itself is reachable. */
  lemma SingleNodeReach()
    ensures ReachableSet([[]], 0) == {0}
  {
    ReachableStart([[]], 0);
  }

  /**
    * As written: BFS on the empty graph (a node count of 0 typed, then New
    * Graph) throws and keeps `runningRef` set; after a new one-node graph,
    * BFS and DFS do nothing at all.
    */
  method LockedAfterEmptyGraph() returns (locked: bool, shown: set<int>)
    ensures locked && shown == {}
  {
    var t := new GraphTraversal([[]]);
    t.NewGraph([]);
    t.RunBfs(0);
    t.NewGraph([[]]);
    t.RunBfs(0);
    t.RunDfs(0);
    locked, shown := t.running, t.visited;
  }

  /**
    * Corrected: when the traversals release `runningRef` however they end,
    * the empty graph leaves the panel usable, and BFS on the next graph
    * visits its node.
    */
  method RecoversAfterEmptyGraph() returns (locked: bool, shown: set<int>)
    ensures !locked && shown == {0}
  {
    var t := new GraphTraversal([[]]);
    t.NewGraph([]);
    t.RunBfsReleasing(0);
    t.NewGraph([[]]);
    t.RunBfsReleasing(0);
    SingleNodeReach();
    locked, shown := t.running, t.visited;
  }
}
