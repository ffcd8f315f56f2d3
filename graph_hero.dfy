/**
  * The site graph of the landing page (components/GraphHero.tsx): the
  * adjacency table built from the edge list, the breadth-first parent map
  * from `Start` in which the first path to reach a node wins, the set of
  * nodes on the path from the hovered node back to `Start`, and the test
  * that draws an edge as part of that path. The algorithms are generic in
  * the node type; the shipped nodes and edges follow at the end.
  */
module GraphHero {
  import opened Wrappers

  datatype Edge<T> = Edge(from: T, to: T)

  /** The `to` of every edge whose `from` is `x`, in edge-list order. */
  function Targets<T(==)>(edges: seq<Edge<T>>, x: T): seq<T> {
    if edges == [] then []
    else
      var e := edges[|edges| - 1];
      Targets(edges[..|edges| - 1], x) + (if e.from == x then [e.to] else [])
  }

  /** Filtering by source commutes with concatenation, so edge order is kept. */
  lemma {:induction false} TargetsConcat<T>(a: seq<Edge<T>>, b: seq<Edge<T>>, x: T)
    ensures Targets(a + b, x) == Targets(a, x) + Targets(b, x)
    decreases |b|
  {
    if b == [] {
      assert a + b == a;
    } else {
      var b' := b[..|b| - 1];
      assert (a + b)[..|a + b| - 1] == a + b';
      assert (a + b)[|a + b| - 1] == b[|b| - 1];
      TargetsConcat(a, b', x);
    }
  }

  /** `w` is listed for `x` exactly when some edge goes from `x` to `w`. */
  lemma {:induction false} TargetsMembers<T>(edges: seq<Edge<T>>, x: T, w: T)
    ensures w in Targets(edges, x) <==> exists i :: 0 <= i < |edges| && edges[i] == Edge(x, w)
    decreases |edges|
  {
    if edges != [] {
      var init := edges[..|edges| - 1];
      TargetsMembers(init, x, w);
      if exists i :: 0 <= i < |init| && init[i] == Edge(x, w) {
        var i :| 0 <= i < |init| && init[i] == Edge(x, w);
        assert edges[i] == Edge(x, w);
      }
      if exists i :: 0 <= i < |edges| && edges[i] == Edge(x, w) {
        var i :| 0 <= i < |edges| && edges[i] == Edge(x, w);
        if i < |init| {
          assert init[i] == Edge(x, w);
        }
      }
    }
  }

  /**
    * `adjacency`: an empty list for every node id, then each edge's `to`
    * pushed onto its `from`'s list. Every edge must start at a node, as
    * pushing onto a missing list fails.
    */
  method BuildAdjacency<T(==)>(ids: seq<T>, edges: seq<Edge<T>>) returns (adj: map<T, seq<T>>)
    requires forall i :: 0 <= i < |edges| ==> edges[i].from in ids
    ensures forall x :: x in adj <==> x in ids
    ensures forall x :: x in adj ==> adj[x] == Targets(edges, x)
  {
    adj := map[];
    for i := 0 to |ids|
      invariant forall x :: x in adj <==> x in ids[..i]
      invariant forall x :: x in adj ==> adj[x] == []
    {
      adj := adj[ids[i] := []];
    }
    assert ids[..|ids|] == ids;
    for k := 0 to |edges|
      invariant forall x :: x in adj <==> x in ids
      invariant forall x :: x in adj ==> adj[x] == Targets(edges[..k], x)
    {
      var e := edges[k];
      assert edges[..k + 1][..k] == edges[..k];
      adj := adj[e.from := adj[e.from] + [e.to]];
    }
    assert edges[..|edges|] == edges;
  }

  /** `adjacency[x] || []`. */
  function Succ<T>(adj: map<T, seq<T>>, x: T): seq<T> {
    if x in adj then adj[x] else []
  }

  /** Every node the table mentions. */
  function Universe<T>(adj: map<T, seq<T>>): set<T> {
    adj.Keys + (set k, i | k in adj && 0 <= i < |adj[k]| :: adj[k][i])
  }

  lemma SuccInUniverse<T>(adj: map<T, seq<T>>, x: T)
    ensures forall w :: w in Succ(adj, x) ==> w in Universe(adj)
  {
    forall w | w in Succ(adj, x)
      ensures w in Universe(adj)
    {
      var i :| 0 <= i < |adj[x]| && adj[x][i] == w;
    }
  }

  /**
    * The inner `for` of the parent-map loop over the neighbours `nbrs` of
    * `cur`: a neighbour without a parent gets `cur` and is queued.
    */
  function Expand<T(==)>(nbrs: seq<T>, cur: T, queue: seq<T>, parent: map<T, Option<T>>)
    : (r: (seq<T>, map<T, Option<T>>))
    ensures forall k :: k in parent ==> k in r.1 && r.1[k] == parent[k]
    ensures forall k :: k in r.1 && k !in parent ==> k in nbrs && r.1[k] == Some(cur) && k in r.0
    ensures forall x :: x in queue ==> x in r.0
    ensures forall i :: 0 <= i < |r.0| ==> r.0[i] in queue || r.0[i] in r.1
    ensures r.1.Keys == parent.Keys ==> r.0 == queue
    ensures forall k :: k in nbrs ==> k in r.1
    decreases |nbrs|
  {
    if nbrs == [] then (queue, parent)
    else if nbrs[0] in parent then Expand(nbrs[1..], cur, queue, parent)
    else Expand(nbrs[1..], cur, queue + [nbrs[0]], parent[nbrs[0] := Some(cur)])
  }

  /** The outer `while (q.length)` loop of the parent map, as a function of the queue and the map so far. */
  function Drain<T(==)>(adj: map<T, seq<T>>, queue: seq<T>, parent: map<T, Option<T>>): map<T, Option<T>>
    decreases Universe(adj) - parent.Keys, |queue|
  {
    if queue == [] then parent
    else
      var r := Expand(Succ(adj, queue[0]), queue[0], queue[1..], parent);
      SuccInUniverse(adj, queue[0]);
      Drain(adj, r.0, r.1)
  }

  /** `parentMap`: empty when `start` has no adjacency entry, else `start` maps to nothing and the queue is drained. */
  function ParentMapSpec<T(==)>(adj: map<T, seq<T>>, start: T): map<T, Option<T>> {
    if start !in adj then map[] else Drain(adj, [start], map[start := None])
  }

  /** `parentMap` as the page computes it, with a queue and a map updated in place. */
  method ParentMap<T(==)>(adj: map<T, seq<T>>, start: T) returns (parent: map<T, Option<T>>)
    ensures parent == ParentMapSpec(adj, start)
  {
    parent := map[];
    if start !in adj {
      return;
    }
    parent := map[start := None];
    var queue := [start];
    while queue != []
      invariant Drain(adj, queue, parent) == ParentMapSpec(adj, start)
      decreases Universe(adj) - parent.Keys, |queue|
    {
      var cur := queue[0];
      var nbrs := Succ(adj, cur);
      ghost var q0, p0 := queue[1..], parent;
      queue := queue[1..];
      for i := 0 to |nbrs|
        invariant Expand(nbrs[i..], cur, queue, parent) == Expand(nbrs, cur, q0, p0)
      {
        assert nbrs[i..][1..] == nbrs[i + 1..];
        var nxt := nbrs[i];
        if nxt !in parent {
          parent := parent[nxt := Some(cur)];
          queue := queue + [nxt];
        }
      }
      assert nbrs[|nbrs|..] == [];
      SuccInUniverse(adj, cur);
    }
  }

  // ---------------------------------------------------------------- paths

  /** A walk along the table: each node is listed under the previous one. */
  predicate IsPath<T>(adj: map<T, seq<T>>, p: seq<T>) {
    |p| >= 1 && forall i :: 0 <= i < |p| - 1 ==> p[i + 1] in Succ(adj, p[i])
  }

  ghost predicate Reachable<T(!new)>(adj: map<T, seq<T>>, s: T, v: T) {
    exists p :: IsPath(adj, p) && p[0] == s && p[|p| - 1] == v
  }

  /** Following parents from `k` arrives at `start` within `fuel` steps. */
  predicate ReachesStart<T(==)>(parent: map<T, Option<T>>, start: T, k: T, fuel: nat)
    decreases fuel
  {
    k == start ||
    (fuel > 0 && k in parent && parent[k].Some? && ReachesStart(parent, start, parent[k].value, fuel - 1))
  }

  /** Every key's parent chain ends at `start`: the map has no cycle. */
  predicate Rooted<T(==)>(parent: map<T, Option<T>>, start: T) {
    forall k :: k in parent ==> ReachesStart(parent, start, k, |parent.Keys|)
  }

  /** `start` has no parent; every other key's parent is a key that lists it. */
  predicate ParentsOk<T(==)>(adj: map<T, seq<T>>, start: T, parent: map<T, Option<T>>) {
    start in parent && parent[start] == None &&
    forall k :: k in parent && k != start ==>
      parent[k].Some? && parent[k].value in parent && k in Succ(adj, parent[k].value)
  }

  ghost predicate AllReachable<T(!new)>(adj: map<T, seq<T>>, start: T, parent: map<T, Option<T>>) {
    forall k :: k in parent ==> Reachable(adj, start, k)
  }

  /** Every neighbour of a key is a key, unless the key still waits in the queue. */
  predicate ClosedBut<T(==)>(adj: map<T, seq<T>>, queue: seq<T>, parent: map<T, Option<T>>) {
    forall k, w :: k in parent && k !in queue && w in Succ(adj, k) ==> w in parent
  }

  ghost predicate DrainInv<T(!new)>(adj: map<T, seq<T>>, start: T, queue: seq<T>, parent: map<T, Option<T>>) {
    ParentsOk(adj, start, parent) && AllReachable(adj, start, parent) && Rooted(parent, start) &&
    (forall i :: 0 <= i < |queue| ==> queue[i] in parent) && ClosedBut(adj, queue, parent)
  }

  lemma ReachableStep<T(!new)>(adj: map<T, seq<T>>, s: T, u: T, w: T)
    requires Reachable(adj, s, u) && w in Succ(adj, u)
    ensures Reachable(adj, s, w)
  {
    var p :| IsPath(adj, p) && p[0] == s && p[|p| - 1] == u;
    var q := p + [w];
    assert q[|q| - 2] == u;
    assert IsPath(adj, q);
  }

  /** Extending a map without changing its entries keeps every chain, with more fuel too. */
  lemma {:induction false} ReachesExtend<T>(parent: map<T, Option<T>>, parent': map<T, Option<T>>, start: T, k: T, f: nat, f': nat)
    requires forall x :: x in parent ==> x in parent' && parent'[x] == parent[x]
    requires f <= f' && ReachesStart(parent, start, k, f)
    ensures ReachesStart(parent', start, k, f')
    decreases f
  {
    if k != start {
      ReachesExtend(parent, parent', start, parent[k].value, f - 1, f' - 1);
    }
  }

  /** One new key `n` whose parent `cur` is already a key keeps the invariant. */
  lemma AddChild<T(!new)>(adj: map<T, seq<T>>, start: T, parent: map<T, Option<T>>, cur: T, n: T)
    requires ParentsOk(adj, start, parent) && AllReachable(adj, start, parent) && Rooted(parent, start)
    requires cur in parent && n !in parent && n in Succ(adj, cur)
    ensures var p' := parent[n := Some(cur)];
      ParentsOk(adj, start, p') && AllReachable(adj, start, p') && Rooted(p', start)
  {
    var p' := parent[n := Some(cur)];
    assert |p'.Keys| == |parent.Keys| + 1 by {
      assert p'.Keys == parent.Keys + {n};
    }
    ReachableStep(adj, start, cur, n);
    forall k | k in p'
      ensures ReachesStart(p', start, k, |p'.Keys|)
    {
      if k == n {
        ReachesExtend(parent, p', start, cur, |parent.Keys|, |parent.Keys|);
      } else {
        ReachesExtend(parent, p', start, k, |parent.Keys|, |p'.Keys|);
      }
    }
  }

  lemma {:induction false} ExpandInv<T(!new)>(adj: map<T, seq<T>>, start: T, nbrs: seq<T>, cur: T,
                                        queue: seq<T>, parent: map<T, Option<T>>)
    requires ParentsOk(adj, start, parent) && AllReachable(adj, start, parent) && Rooted(parent, start)
    requires cur in parent && forall i :: 0 <= i < |nbrs| ==> nbrs[i] in Succ(adj, cur)
    requires forall i :: 0 <= i < |queue| ==> queue[i] in parent
    ensures var r := Expand(nbrs, cur, queue, parent);
      ParentsOk(adj, start, r.1) && AllReachable(adj, start, r.1) && Rooted(r.1, start) &&
      forall i :: 0 <= i < |r.0| ==> r.0[i] in r.1
    decreases |nbrs|
  {
    if nbrs != [] {
      if nbrs[0] in parent {
        ExpandInv(adj, start, nbrs[1..], cur, queue, parent);
      } else {
        AddChild(adj, start, parent, cur, nbrs[0]);
        ExpandInv(adj, start, nbrs[1..], cur, queue + [nbrs[0]], parent[nbrs[0] := Some(cur)]);
      }
    }
  }

  /** One round of the outer loop keeps the invariant. */
  lemma StepKeepsInv<T(!new)>(adj: map<T, seq<T>>, start: T, queue: seq<T>, parent: map<T, Option<T>>)
    requires queue != [] && DrainInv(adj, start, queue, parent)
    ensures var r := Expand(Succ(adj, queue[0]), queue[0], queue[1..], parent);
      DrainInv(adj, start, r.0, r.1)
  {
    var cur := queue[0];
    var r := Expand(Succ(adj, cur), cur, queue[1..], parent);
    assert queue == [cur] + queue[1..];
    ExpandInv(adj, start, Succ(adj, cur), cur, queue[1..], parent);
    forall k, w | k in r.1 && k !in r.0 && w in Succ(adj, k)
      ensures w in r.1
    {
      if k != cur {
        assert k in parent && k !in queue;
      }
    }
  }

  lemma {:induction false} DrainKeepsInv<T(!new)>(adj: map<T, seq<T>>, start: T, queue: seq<T>, parent: map<T, Option<T>>)
    requires DrainInv(adj, start, queue, parent)
    ensures DrainInv(adj, start, [], Drain(adj, queue, parent))
    ensures forall k :: k in parent ==> k in Drain(adj, queue, parent) && Drain(adj, queue, parent)[k] == parent[k]
    decreases Universe(adj) - parent.Keys, |queue|
  {
    if queue != [] {
      var r := Expand(Succ(adj, queue[0]), queue[0], queue[1..], parent);
      StepKeepsInv(adj, start, queue, parent);
      SuccInUniverse(adj, queue[0]);
      DrainKeepsInv(adj, start, r.0, r.1);
    }
  }

  /** A set of keys holding `s` and closed under the table holds every node reachable from `s`. */
  lemma {:induction false} PathInKeys<T>(adj: map<T, seq<T>>, parent: map<T, Option<T>>, p: seq<T>, i: nat)
    requires IsPath(adj, p) && p[0] in parent && ClosedBut(adj, [], parent) && i < |p|
    ensures p[i] in parent
  {
    if i > 0 {
      PathInKeys(adj, parent, p, i - 1);
      assert p[i] in Succ(adj, p[i - 1]);
    }
  }

  /**
    * The parent map from `start`: `start` maps to nothing, every other key
    * maps to a key whose list holds it, every chain of parents leads back to
    * `start`, and the keys are exactly the nodes reachable from `start`.
    */
  lemma ParentMapCorrect<T(!new)>(adj: map<T, seq<T>>, start: T)
    requires start in adj
    ensures ParentsOk(adj, start, ParentMapSpec(adj, start))
    ensures Rooted(ParentMapSpec(adj, start), start)
    ensures forall v :: v in ParentMapSpec(adj, start) <==> Reachable(adj, start, v)
  {
    var p0 := map[start := None];
    assert IsPath(adj, [start]);
    assert |p0.Keys| == 1 by {
      assert p0.Keys == {start};
    }
    assert DrainInv(adj, start, [start], p0);
    DrainKeepsInv(adj, start, [start], p0);
    var m := ParentMapSpec(adj, start);
    forall v | Reachable(adj, start, v)
      ensures v in m
    {
      var p :| IsPath(adj, p) && p[0] == start && p[|p| - 1] == v;
      PathInKeys(adj, m, p, |p| - 1);
    }
  }

  // ---------------------------------------------------------------- the hovered path

  /**
    * The nodes `pathSet` collects from `k`: `k`, then its parent and so on,
    * stopping at `start` or where the map records no parent.
    */
  function Walk<T(==)>(parent: map<T, Option<T>>, start: T, k: T, fuel: nat): (w: seq<T>)
    ensures |w| >= 1 && w[0] == k
    decreases fuel
  {
    if k == start || fuel == 0 || k !in parent || parent[k].None? then [k]
    else [k] + Walk(parent, start, parent[k].value, fuel - 1)
  }

  function Elems<T>(s: seq<T>): set<T> {
    set x | x in s
  }

  /**
    * `pathSet`: empty without a hovered node; otherwise add `cur`, stop at
    * `start`, else move to `parentMap.get(cur)`, until there is none.
    */
  method PathSet<T(==)>(parent: map<T, Option<T>>, start: T, hover: Option<T>) returns (s: set<T>)
    requires Rooted(parent, start)
    ensures hover.None? ==> s == {}
    ensures hover.Some? ==> s == Elems(Walk(parent, start, hover.value, |parent.Keys|))
  {
    s := {};
    if hover.None? {
      return;
    }
    var cur := hover;
    ghost var target := Elems(Walk(parent, start, hover.value, |parent.Keys|));
    ghost var fuel: nat := |parent.Keys|;
    assert s + target == target;
    while cur.Some?
      invariant WalkInv(parent, start, cur, fuel, s, target)
      decreases if cur.None? then 0 else fuel + 1
    {
      var k := cur.value;
      s := s + {k};
      if k == start {
        WalkStep(parent, start, k, fuel);
        break;
      }
      var next := if k in parent then parent[k] else None;
      PathSetStep(parent, start, k, fuel);
      if next.Some? {
        fuel := fuel - 1;
      }
      cur := next;
    }
  }

  /** What the `pathSet` loop keeps: `s` and the rest of the walk from `cur` make up the whole walk. */
  ghost predicate WalkInv<T>(parent: map<T, Option<T>>, start: T, cur: Option<T>, fuel: nat, s: set<T>, target: set<T>) {
    match cur
    case None => s == target
    case Some(k) =>
      (k in parent ==> ReachesStart(parent, start, k, fuel)) && s + Elems(Walk(parent, start, k, fuel)) == target
  }

  /** One round of the `pathSet` loop away from `start`. */
  lemma PathSetStep<T>(parent: map<T, Option<T>>, start: T, k: T, fuel: nat)
    requires k != start && (k in parent ==> ReachesStart(parent, start, k, fuel))
    ensures var next := if k in parent then parent[k] else None;
      (next.None? ==> Elems(Walk(parent, start, k, fuel)) == {k}) &&
      (next.Some? ==>
        fuel > 0 && (next.value in parent ==> ReachesStart(parent, start, next.value, fuel - 1)) &&
        Elems(Walk(parent, start, k, fuel)) == {k} + Elems(Walk(parent, start, next.value, fuel - 1)))
  {
    WalkStep(parent, start, k, fuel);
  }

  /** The first step of a walk. */
  lemma WalkStep<T>(parent: map<T, Option<T>>, start: T, k: T, fuel: nat)
    ensures var w := Elems(Walk(parent, start, k, fuel));
      if k == start || fuel == 0 || k !in parent || parent[k].None? then w == {k}
      else w == {k} + Elems(Walk(parent, start, parent[k].value, fuel - 1))
  {
    var w := Walk(parent, start, k, fuel);
    if k == start || fuel == 0 || k !in parent || parent[k].None? {
      assert w == [k];
    } else {
      var rest := Walk(parent, start, parent[k].value, fuel - 1);
      assert w == [k] + rest;
      assert forall x :: x in w <==> x == k || x in rest;
    }
  }

  /** A walk with enough fuel ends at `start`. */
  lemma {:induction false} WalkEndsAtStart<T>(parent: map<T, Option<T>>, start: T, k: T, fuel: nat)
    requires ReachesStart(parent, start, k, fuel)
    ensures var w := Walk(parent, start, k, fuel); w[|w| - 1] == start
    decreases fuel
  {
    if k != start {
      WalkEndsAtStart(parent, start, parent[k].value, fuel - 1);
    }
  }

  /** Each node of `w` but the last is a key other than `start`, and the next node is its parent. */
  predicate FollowsParents<T(==)>(parent: map<T, Option<T>>, start: T, w: seq<T>) {
    forall i :: 0 <= i < |w| - 1 ==> w[i] != start && w[i] in parent && parent[w[i]] == Some(w[i + 1])
  }

  lemma {:induction false} WalkFollowsParents<T>(parent: map<T, Option<T>>, start: T, k: T, fuel: nat)
    ensures FollowsParents(parent, start, Walk(parent, start, k, fuel))
    decreases fuel
  {
    var w := Walk(parent, start, k, fuel);
    if !(k == start || fuel == 0 || k !in parent || parent[k].None?) {
      var rest := Walk(parent, start, parent[k].value, fuel - 1);
      WalkFollowsParents(parent, start, parent[k].value, fuel - 1);
      assert w == [k] + rest;
      forall i | 0 <= i < |w| - 1
        ensures w[i] != start && w[i] in parent && parent[w[i]] == Some(w[i + 1])
      {
        if i > 0 {
          assert w[i] == rest[i - 1] && w[i + 1] == rest[i];
        }
      }
    }
  }

  /**
    * For a hovered node of the parent map, `pathSet` holds it and `start`,
    * and with every node other than `start` it holds that node's parent.
    */
  lemma PathSetHoldsAncestors<T>(parent: map<T, Option<T>>, start: T, hover: T)
    requires Rooted(parent, start) && hover in parent
    ensures var s := Elems(Walk(parent, start, hover, |parent.Keys|));
      hover in s && start in s &&
      forall x :: x in s && x != start ==> x in parent && parent[x].Some? && parent[x].value in s
  {
    var w := Walk(parent, start, hover, |parent.Keys|);
    WalkEndsAtStart(parent, start, hover, |parent.Keys|);
    WalkFollowsParents(parent, start, hover, |parent.Keys|);
    assert w[|w| - 1] in Elems(w);
    forall x | x in Elems(w) && x != start
      ensures x in parent && parent[x].Some? && parent[x].value in Elems(w)
    {
      var i :| 0 <= i < |w| && w[i] == x;
      assert i < |w| - 1;
      assert w[i + 1] in Elems(w);
    }
  }

  /** The test that draws an edge as part of the hovered path. */
  predicate OnPath<T(==)>(pathSet: set<T>, parent: map<T, Option<T>>, from: T, to: T) {
    |pathSet| > 0 && from in pathSet && to in pathSet && to in parent && parent[to] == Some(from)
  }

  /**
    * With a hovered node of the parent map, exactly the edges between
    * consecutive nodes of the walk (child to parent) are drawn on the path.
    */
  lemma OnPathIsWalkStep<T>(parent: map<T, Option<T>>, start: T, hover: T, from: T, to: T)
    requires Rooted(parent, start) && hover in parent && start in parent && parent[start] == None
    ensures var w := Walk(parent, start, hover, |parent.Keys|);
      OnPath(Elems(w), parent, from, to) <==> exists i :: 0 <= i < |w| - 1 && w[i] == to && w[i + 1] == from
  {
    var w := Walk(parent, start, hover, |parent.Keys|);
    WalkEndsAtStart(parent, start, hover, |parent.Keys|);
    WalkFollowsParents(parent, start, hover, |parent.Keys|);
    if OnPath(Elems(w), parent, from, to) {
      var i :| 0 <= i < |w| && w[i] == to;
      assert i < |w| - 1;
      assert parent[w[i]] == Some(w[i + 1]);
      assert w[i + 1] == from;
    }
    if exists i :: 0 <= i < |w| - 1 && w[i] == to && w[i + 1] == from {
      var i :| 0 <= i < |w| - 1 && w[i] == to && w[i + 1] == from;
      assert w[i] in Elems(w) && w[i + 1] in Elems(w);
      assert Elems(w) != {};
    }
  }

  // ---------------------------------------------------------------- the shipped graph

  datatype Node = Start | About | Work | Projects | CodingStats | Writing | Playground | Contact

  /** The `id` string each node carries. */
  function Id(n: Node): string {
    match n
    case Start => "Start"
    case About => "About"
    case Work => "Work"
    case Projects => "Projects"
    case CodingStats => "Coding Stats"
    case Writing => "Writing"
    case Playground => "Playground"
    case Contact => "Contact"
  }

  /** No two nodes share an id, so the enumeration stands for the ids faithfully. */
  lemma IdsDistinct(m: Node, n: Node)
    ensures Id(m) == Id(n) ==> m == n
  {
    if m != n {
      assert Id(m)[0] != Id(n)[0] || Id(m)[1] != Id(n)[1] || |Id(m)| != |Id(n)|;
    }
  }

  /** `NODE_DATA`, in order. */
  function NodeData(): seq<Node> {
    [Start, About, Work, Projects, CodingStats, Writing, Playground, Contact]
  }

  /** `EDGE_DATA`, in order. */
  function EdgeData(): seq<Edge<Node>> {
    [Edge(Start, About), Edge(About, Work), Edge(Work, Projects), Edge(Work, CodingStats),
     Edge(Work, Writing), Edge(Projects, Playground), Edge(CodingStats, Playground),
     Edge(Writing, Playground), Edge(Playground, Contact)]
  }

  /** The adjacency table of the shipped graph. */
  function Adj(): map<Node, seq<Node>> {
    map[Start := [About], About := [Work], Work := [Projects, CodingStats, Writing],
        Projects := [Playground], CodingStats := [Playground], Writing := [Playground],
        Playground := [Contact], Contact := []]
  }

  /** Appending one edge adds its target to its source's list. */
  lemma TargetsSnoc<T>(a: seq<Edge<T>>, e: Edge<T>, x: T)
    ensures Targets(a + [e], x) == Targets(a, x) + (if e.from == x then [e.to] else [])
  {
    assert (a + [e])[..|a + [e]| - 1] == a;
  }

  /** `adjacency` built from `NODE_DATA` and `EDGE_DATA` is `Adj()`. */
  lemma ShippedAdjacency()
    ensures forall i :: 0 <= i < |EdgeData()| ==> EdgeData()[i].from in NodeData()
    ensures forall x :: x in Adj() <==> x in NodeData()
    ensures forall x :: x in Adj() ==> Adj()[x] == Targets(EdgeData(), x)
  {
    var e := EdgeData();
    var a0: seq<Edge<Node>> := [];
    var a1 := a0 + [e[0]];
    var a2 := a1 + [e[1]];
    var a3 := a2 + [e[2]];
    var a4 := a3 + [e[3]];
    var a5 := a4 + [e[4]];
    var a6 := a5 + [e[5]];
    var a7 := a6 + [e[6]];
    var a8 := a7 + [e[7]];
    assert a8 + [e[8]] == e;
    forall x | x in Adj()
      ensures Adj()[x] == Targets(e, x)
    {
      TargetsSnoc(a0, e[0], x);
      TargetsSnoc(a1, e[1], x);
      TargetsSnoc(a2, e[2], x);
      TargetsSnoc(a3, e[3], x);
      TargetsSnoc(a4, e[4], x);
      TargetsSnoc(a5, e[5], x);
      TargetsSnoc(a6, e[6], x);
      TargetsSnoc(a7, e[7], x);
      TargetsSnoc(a8, e[8], x);
    }
  }

  /** One round of the parent-map loop, from a queue with head `cur`. */
  lemma DrainStep<T>(adj: map<T, seq<T>>, cur: T, rest: seq<T>, parent: map<T, Option<T>>,
                     queue': seq<T>, parent': map<T, Option<T>>)
    requires Expand(Succ(adj, cur), cur, rest, parent) == (queue', parent')
    ensures Drain(adj, [cur] + rest, parent) == Drain(adj, queue', parent')
  {
    assert ([cur] + rest)[1..] == rest;
  }

  /** The lists of the shipped table, one node at a time. */
  lemma ShippedSucc()
    ensures Succ(Adj(), Start) == [About] && Succ(Adj(), About) == [Work]
    ensures Succ(Adj(), Work) == [Projects, CodingStats, Writing]
    ensures Succ(Adj(), Projects) == [Playground] && Succ(Adj(), CodingStats) == [Playground]
    ensures Succ(Adj(), Writing) == [Playground] && Succ(Adj(), Playground) == [Contact]
    ensures Succ(Adj(), Contact) == []
  {
  }

  function P1(): map<Node, Option<Node>> { map[Start := None, About := Some(Start)] }
  function P2(): map<Node, Option<Node>> { P1()[Work := Some(About)] }
  function P3(): map<Node, Option<Node>> { P2()[Projects := Some(Work)][CodingStats := Some(Work)][Writing := Some(Work)] }
  function P4(): map<Node, Option<Node>> { P3()[Playground := Some(Projects)] }
  function P5(): map<Node, Option<Node>> { P4()[Contact := Some(Playground)] }

  lemma Round1()
    ensures Expand(Succ(Adj(), Start), Start, [], map[Start := None]) == ([About], P1())
  {
    ShippedSucc();
    assert [About][1..] == [];
    assert [] + [About] == [About];
    assert Expand([About], Start, [], map[Start := None]) == Expand([], Start, [About], P1());
  }

  lemma Round2()
    ensures Expand(Succ(Adj(), About), About, [], P1()) == ([Work], P2())
  {
    ShippedSucc();
    assert [Work][1..] == [];
    assert [] + [Work] == [Work];
    assert Expand([Work], About, [], P1()) == Expand([], About, [Work], P2());
  }

  lemma Round3()
    ensures Expand(Succ(Adj(), Work), Work, [], P2()) == ([Projects, CodingStats, Writing], P3())
  {
    ShippedSucc();
    var p3a := P2()[Projects := Some(Work)];
    var p3b := p3a[CodingStats := Some(Work)];
    assert [Projects, CodingStats, Writing][1..] == [CodingStats, Writing];
    assert [CodingStats, Writing][1..] == [Writing];
    assert [Writing][1..] == [];
    assert [] + [Projects] == [Projects];
    assert [Projects] + [CodingStats] == [Projects, CodingStats];
    assert [Projects, CodingStats] + [Writing] == [Projects, CodingStats, Writing];
    assert Expand([Writing], Work, [Projects, CodingStats], p3b) == Expand([], Work, [Projects, CodingStats, Writing], P3());
    assert Expand([CodingStats, Writing], Work, [Projects], p3a) == Expand([Writing], Work, [Projects, CodingStats], p3b);
    assert Expand([Projects, CodingStats, Writing], Work, [], P2()) == Expand([CodingStats, Writing], Work, [Projects], p3a);
  }

  lemma Round4()
    ensures Expand(Succ(Adj(), Projects), Projects, [CodingStats, Writing], P3()) == ([CodingStats, Writing, Playground], P4())
  {
    ShippedSucc();
    assert [Playground][1..] == [];
    assert [CodingStats, Writing] + [Playground] == [CodingStats, Writing, Playground];
    assert Expand([Playground], Projects, [CodingStats, Writing], P3()) == Expand([], Projects, [CodingStats, Writing, Playground], P4());
  }

  lemma Round5()
    ensures Expand(Succ(Adj(), CodingStats), CodingStats, [Writing, Playground], P4()) == ([Writing, Playground], P4())
    ensures Expand(Succ(Adj(), Writing), Writing, [Playground], P4()) == ([Playground], P4())
  {
    ShippedSucc();
    assert [Playground][1..] == [];
  }

  lemma Round6()
    ensures Expand(Succ(Adj(), Playground), Playground, [], P4()) == ([Contact], P5())
    ensures Expand(Succ(Adj(), Contact), Contact, [], P5()) == ([], P5())
  {
    ShippedSucc();
    assert [Contact][1..] == [];
    assert [] + [Contact] == [Contact];
    assert Expand([Contact], Playground, [], P4()) == Expand([], Playground, [Contact], P5());
  }

  /** The queues of the rounds, split into head and rest. */
  lemma QueueShapes()
    ensures [Start] + [] == [Start] && [About] + [] == [About] && [Work] + [] == [Work]
    ensures [Projects] + [CodingStats, Writing] == [Projects, CodingStats, Writing]
    ensures [CodingStats] + [Writing, Playground] == [CodingStats, Writing, Playground]
    ensures [Writing] + [Playground] == [Writing, Playground]
    ensures [Playground] + [] == [Playground] && [Contact] + [] == [Contact]
  {
  }

  /**
    * The parent map of the shipped graph: `Playground` is reached first
    * through `Projects`, not through `Coding Stats` or `Writing`.
    */
  lemma ShippedParents()
    ensures ParentMapSpec(Adj(), Start) ==
      map[Start := None, About := Some(Start), Work := Some(About), Projects := Some(Work),
          CodingStats := Some(Work), Writing := Some(Work), Playground := Some(Projects),
          Contact := Some(Playground)]
  {
    var adj := Adj();
    Round1();
    Round2();
    Round3();
    Round4();
    Round5();
    Round6();
    QueueShapes();
    DrainStep(adj, Start, [], map[Start := None], [About], P1());
    DrainStep(adj, About, [], P1(), [Work], P2());
    DrainStep(adj, Work, [], P2(), [Projects, CodingStats, Writing], P3());
    DrainStep(adj, Projects, [CodingStats, Writing], P3(), [CodingStats, Writing, Playground], P4());
    DrainStep(adj, CodingStats, [Writing, Playground], P4(), [Writing, Playground], P4());
    DrainStep(adj, Writing, [Playground], P4(), [Playground], P4());
    DrainStep(adj, Playground, [], P4(), [Contact], P5());
    DrainStep(adj, Contact, [], P5(), [], P5());
  }

  /** Every node has an entry in the shipped parent map. */
  lemma ShippedKeys()
    ensures P5().Keys == {Start, About, Work, Projects, CodingStats, Writing, Playground, Contact}
    ensures |P5().Keys| == 8
  {
    assert P5().Keys == {Start, About, Work, Projects, CodingStats, Writing, Playground, Contact};
  }

  /** The walk `pathSet` takes from `Contact` through the shipped parent map. */
  lemma ContactWalk()
    ensures Walk(P5(), Start, Contact, 8) == [Contact, Playground, Projects, Work, About, Start]
  {
    var p := P5();
    assert Walk(p, Start, Start, 3) == [Start];
    assert Walk(p, Start, About, 4) == [About] + [Start];
    assert Walk(p, Start, Work, 5) == [Work] + [About, Start];
    assert Walk(p, Start, Projects, 6) == [Projects] + [Work, About, Start];
    assert Walk(p, Start, Playground, 7) == [Playground] + [Projects, Work, About, Start];
    assert Walk(p, Start, Contact, 8) == [Contact] + [Playground, Projects, Work, About, Start];
  }

  /**
    * Hovering `Contact` lights up `Contact`, `Playground`, `Projects`,
    * `Work`, `About` and `Start`; the edge from `Writing` to `Playground` is
    * not drawn on the path.
    */
  lemma ContactPath()
    ensures var parent := ParentMapSpec(Adj(), Start);
      Walk(parent, Start, Contact, |parent.Keys|) == [Contact, Playground, Projects, Work, About, Start]
    ensures var parent := ParentMapSpec(Adj(), Start);
      !OnPath(Elems(Walk(parent, Start, Contact, |parent.Keys|)), parent, Writing, Playground)
  {
    ShippedParents();
    ShippedKeys();
    ContactWalk();
    assert ParentMapSpec(Adj(), Start) == P5();
    assert P5()[Playground] == Some(Projects);
  }
}
