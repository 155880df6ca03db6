/**
 Equal-cost multipath routes: a breadth-first search from the source that
 leaves the destination unexpanded, followed by a walk back along the parents.
 */
module Ecmp {
  import opened Common

  type Node = nat

  /** Each node's neighbours, in the order in which links were added. */
  type Graph = map<Node, seq<Node>>

  function Adj(g: Graph, u: Node): seq<Node> {
    if u in g then g[u] else []
  }

  ghost predicate Edge(g: Graph, u: Node, v: Node) {
    v in Adj(g, u)
  }

  /** There is a walk of k steps. */
  ghost predicate Walk(g: Graph, a: Node, b: Node, k: nat)
    decreases k
  {
    if k == 0 then a == b else exists n :: Edge(g, a, n) && Walk(g, n, b, k - 1)
  }

  ghost predicate IsDistance(g: Graph, a: Node, b: Node, d: nat) {
    Walk(g, a, b, d) && forall k: nat {:trigger Walk(g, a, b, k)} :: k < d ==> !Walk(g, a, b, k)
  }

  /** A neighbour of the source that lies on a shortest path to the destination. */
  ghost predicate OnShortestPath(g: Graph, src: Node, dst: Node, n: Node) {
    src != dst && Edge(g, src, n) && exists d: nat :: d > 0 && IsDistance(g, src, dst, d) && Walk(g, n, dst, d - 1)
  }

  lemma {:induction false} WalkAppend(g: Graph, a: Node, b: Node, c: Node, k: nat)
    requires Walk(g, a, b, k) && Edge(g, b, c)
    ensures Walk(g, a, c, k + 1)
    decreases k
  {
    if k == 0 {
      assert Walk(g, c, c, 0);
      assert Edge(g, a, c) && Walk(g, c, c, k);
    } else {
      var n :| Edge(g, a, n) && Walk(g, n, b, k - 1);
      WalkAppend(g, n, b, c, k - 1);
    }
  }

  lemma {:induction false} WalkLast(g: Graph, a: Node, c: Node, k: nat) returns (b: Node)
    requires Walk(g, a, c, k) && k > 0
    ensures Walk(g, a, b, k - 1) && Edge(g, b, c)
    decreases k
  {
    var n :| Edge(g, a, n) && Walk(g, n, c, k - 1);
    if k == 1 {
      b := a;
    } else {
      b := WalkLast(g, n, c, k - 1);
      assert Edge(g, a, n) && Walk(g, n, b, k - 2);
    }
  }

  // ------------------------------------------------------------- the search

  /** The graph that the search sees: nothing leads out of the destination. */
  ghost function Seen(g: Graph, dst: Node): Graph {
    g[dst := []]
  }

  datatype Search = Search(dist: map<Node, nat>, parents: map<Node, set<Node>>)

  ghost function ParentsOf(s: Search, v: Node): set<Node> {
    if v in s.parents then s.parents[v] else {}
  }

  /** Every node found has a walk as long as its distance, and only the source is at distance 0. */
  ghost predicate Found(g: Graph, src: Node, s: Search, v: Node) {
    v in s.dist ==>
      && Walk(g, src, v, s.dist[v]) && (s.dist[v] == 0 ==> v == src)
  }

  /** All edges of the node have been followed. */
  ghost predicate Expanded(g: Graph, s: Search, u: Node) {
    u in s.dist && forall v :: Edge(g, u, v) ==> v in s.dist && s.dist[v] <= s.dist[u] + 1
  }

  /** u is a parent of v exactly when its edge to v was followed and v is one step further. */
  ghost predicate ParentOk(g: Graph, s: Search, u: Node, v: Node, followed: bool) {
    u in ParentsOf(s, v) <==> followed && Edge(g, u, v) && u in s.dist && v in s.dist && s.dist[v] == s.dist[u] + 1
  }

  /** The outcome: distances are exact, and parents are the neighbours one step nearer. */
  ghost predicate Searched(g: Graph, src: Node, s: Search) {
    && src in s.dist && s.dist[src] == 0
    && (forall v :: Found(g, src, s, v))
    && (forall u {:trigger Expanded(g, s, u)} :: u in s.dist ==> Expanded(g, s, u))
    && (forall u, v {:trigger ParentOk(g, s, u, v, true)} :: ParentOk(g, s, u, v, true))
  }

  /** Any walk from the source bounds the distance found. */
  lemma {:induction false} NoShorter(g: Graph, src: Node, s: Search, v: Node, k: nat)
    requires Searched(g, src, s) && Walk(g, src, v, k)
    ensures v in s.dist && s.dist[v] <= k
    decreases k
  {
    if k == 0 {
    } else {
      var u := WalkLast(g, src, v, k);
      NoShorter(g, src, s, u, k - 1);
      assert Expanded(g, s, u);
    }
  }

  lemma SearchedDistance(g: Graph, src: Node, s: Search, v: Node, d: nat)
    requires Searched(g, src, s)
    ensures v in s.dist && s.dist[v] == d <==> IsDistance(g, src, v, d)
  {
    assert Found(g, src, s, v);
    if IsDistance(g, src, v, d) {
      NoShorter(g, src, s, v, d);
    }
    if v in s.dist && s.dist[v] == d {
      forall k: nat | k < d
        ensures !Walk(g, src, v, k)
      {
        if Walk(g, src, v, k) {
          NoShorter(g, src, s, v, k);
        }
      }
    }
  }

  /** The search part way: nodes found are done or wait in the queue, nearest first. */
  ghost predicate Searching(g: Graph, src: Node, s: Search, done: set<Node>, queue: seq<(Node, nat)>) {
    && src in s.dist && s.dist[src] == 0
    && (forall v :: Found(g, src, s, v))
    && (forall u {:trigger Expanded(g, s, u)} :: u in done ==> Expanded(g, s, u))
    && (forall u, v {:trigger ParentOk(g, s, u, v, u in done)} :: ParentOk(g, s, u, v, u in done))
    && (forall v :: v in s.dist ==> v in done || (v, s.dist[v]) in queue)
    && (forall e :: e in queue ==> e.0 in s.dist && s.dist[e.0] == e.1)
    && Levels(s, queue)
  }

  /** The queue holds at most two distances, and no node found is further. */
  ghost predicate Levels(s: Search, queue: seq<(Node, nat)>) {
    queue != [] ==>
      && (forall i, j :: 0 <= i < j < |queue| ==> queue[i].1 <= queue[j].1 <= queue[0].1 + 1)
      && (forall v :: v in s.dist ==> s.dist[v] <= queue[0].1 + 1)
  }

  /** What following some edges of a node, at distance d, adds. */
  ghost predicate Followed(s: Search, s': Search, curr: Node, d: nat, nbrs: seq<Node>) {
    Reached(s, s', d, nbrs) && forall v {:trigger Adopted(s, s', curr, d, nbrs, v)} :: Adopted(s, s', curr, d, nbrs, v)
  }

  ghost predicate Reached(s: Search, s': Search, d: nat, nbrs: seq<Node>) {
    && (forall v :: v in s'.dist <==> v in s.dist || v in nbrs)
    && (forall v :: v in s'.dist ==> s'.dist[v] == if v in s.dist then s.dist[v] else d + 1)
  }

  ghost predicate Adopted(s: Search, s': Search, curr: Node, d: nat, nbrs: seq<Node>, v: Node) {
    ParentsOf(s', v) == ParentsOf(s, v) + if v in nbrs && v in s'.dist && s'.dist[v] == d + 1 then {curr} else {}
  }

  /** New nodes wait behind the others. */
  ghost predicate Enqueued(s: Search, s': Search, d: nat, queue: seq<(Node, nat)>, queue': seq<(Node, nat)>) {
    && |queue| <= |queue'| && queue'[..|queue|] == queue
    && (forall i :: |queue| <= i < |queue'| ==>
        queue'[i].1 == d + 1 && queue'[i].0 in s'.dist && queue'[i].0 !in s.dist)
    && (forall v :: v in s'.dist && v !in s.dist ==> (v, d + 1) in queue')
  }

  /** Follows one edge. */
  function FollowOne(s: Search, curr: Node, d: nat, v: Node): Search {
    var known := if v in s.parents then s.parents[v] else {};
    if v !in s.dist then Search(s.dist[v := d + 1], s.parents[v := known + {curr}])
    else if s.dist[v] == d + 1 then s.(parents := s.parents[v := known + {curr}])
    else s
  }

  lemma FollowedOne(s: Search, s': Search, curr: Node, d: nat, nbrs: seq<Node>, n: Node)
    requires Followed(s, s', curr, d, nbrs)
    ensures Followed(s, FollowOne(s', curr, d, n), curr, d, nbrs + [n])
  {
    var t, more := FollowOne(s', curr, d, n), nbrs + [n];
    assert forall v :: v in more <==> v in nbrs || v == n;
    forall v
      ensures Adopted(s, t, curr, d, more, v)
    {
      assert Adopted(s, s', curr, d, nbrs, v);
    }
  }

  lemma EnqueuedOne(s: Search, s': Search, d: nat, queue: seq<(Node, nat)>, queue': seq<(Node, nat)>, curr: Node,
                    n: Node)
    requires Enqueued(s, s', d, queue, queue') && n !in s'.dist && forall v :: v in s.dist ==> v in s'.dist
    ensures Enqueued(s, FollowOne(s', curr, d, n), d, queue, queue' + [(n, d + 1)])
  {
    var q := queue' + [(n, d + 1)];
    forall v | v in FollowOne(s', curr, d, n).dist && v !in s.dist
      ensures (v, d + 1) in q
    {
      if v == n {
        assert q[|queue'|] == (n, d + 1);
      } else {
        assert (v, d + 1) in queue';
      }
    }
  }

  /** Follows all edges of a node taken from the queue. */
  method Expand(nbrs: seq<Node>, curr: Node, d: nat, s: Search, queue: seq<(Node, nat)>)
      returns (s': Search, queue': seq<(Node, nat)>)
    ensures Followed(s, s', curr, d, nbrs) && Enqueued(s, s', d, queue, queue')
  {
    s', queue' := s, queue;
    for i := 0 to |nbrs|
      invariant Followed(s, s', curr, d, nbrs[..i]) && Enqueued(s, s', d, queue, queue')
    {
      var neighbor := nbrs[i];
      FollowedOne(s, s', curr, d, nbrs[..i], neighbor);
      assert nbrs[..i + 1] == nbrs[..i] + [neighbor];
      if neighbor !in s'.dist {
        EnqueuedOne(s, s', d, queue, queue', curr, neighbor);
        queue' := queue' + [(neighbor, d + 1)];
      }
      s' := FollowOne(s', curr, d, neighbor);
    }
    assert nbrs[..|nbrs|] == nbrs;
  }

  lemma TurnFound(g: Graph, src: Node, s: Search, s': Search, curr: Node, d: nat, v: Node)
    requires Reached(s, s', d, Adj(g, curr)) && Found(g, src, s, v) && Walk(g, src, curr, d)
    ensures Found(g, src, s', v)
  {
    if v in s'.dist && v !in s.dist {
      assert Edge(g, curr, v);
      WalkAppend(g, src, curr, v, d);
    }
  }

  lemma TurnParent(g: Graph, s: Search, s': Search, done: set<Node>, curr: Node, d: nat, u: Node, v: Node)
    requires Followed(s, s', curr, d, Adj(g, curr)) && curr in s.dist && s.dist[curr] == d
    requires ParentOk(g, s, u, v, u in done) && (u in done ==> Expanded(g, s, u))
    ensures ParentOk(g, s', u, v, u in done + {curr})
  {
    assert Adopted(s, s', curr, d, Adj(g, curr), v);
  }

  lemma TurnLevels(s: Search, s': Search, d: nat, nbrs: seq<Node>, queue: seq<(Node, nat)>, queue': seq<(Node, nat)>)
    requires Levels(s, queue) && queue != [] && queue[0].1 == d && Reached(s, s', d, nbrs)
             && Enqueued(s, s', d, queue[1..], queue')
    ensures Levels(s', queue')
  {
    var rest := queue[1..];
    forall i | 0 <= i < |queue'|
      ensures d <= queue'[i].1 <= d + 1
    {
      assert i < |rest| ==> queue'[i] == rest[i] == queue[i + 1];
    }
    forall i, j | 0 <= i < j < |queue'|
      ensures queue'[i].1 <= queue'[j].1
    {
      assert j < |rest| ==> queue'[i] == queue[i + 1] && queue'[j] == queue[j + 1];
    }
  }

  lemma TurnWaiting(s: Search, s': Search, done: set<Node>, curr: Node, d: nat, nbrs: seq<Node>,
                    queue: seq<(Node, nat)>, queue': seq<(Node, nat)>)
    requires queue != [] && queue[0] == (curr, d) && Reached(s, s', d, nbrs) && Enqueued(s, s', d, queue[1..], queue')
    requires forall v :: v in s.dist ==> v in done || (v, s.dist[v]) in queue
    requires forall e :: e in queue ==> e.0 in s.dist && s.dist[e.0] == e.1
    ensures forall v :: v in s'.dist ==> v in done + {curr} || (v, s'.dist[v]) in queue'
    ensures forall e :: e in queue' ==> e.0 in s'.dist && s'.dist[e.0] == e.1
  {
    var rest := queue[1..];
    forall v | v in s'.dist
      ensures v in done + {curr} || (v, s'.dist[v]) in queue'
    {
      if v in s.dist && v !in done && v != curr {
        var i :| 0 <= i < |queue| && queue[i] == (v, s.dist[v]);
        assert queue'[i - 1] == rest[i - 1] == queue[i];
      }
    }
    forall e | e in queue'
      ensures e.0 in s'.dist && s'.dist[e.0] == e.1
    {
      var i :| 0 <= i < |queue'| && queue'[i] == e;
      assert i < |rest| ==> queue'[i] == rest[i] == queue[i + 1];
    }
  }

  /** One turn of the search. */
  lemma Turn(g: Graph, src: Node, s: Search, s': Search, done: set<Node>, queue: seq<(Node, nat)>,
             queue': seq<(Node, nat)>)
    requires Searching(g, src, s, done, queue) && queue != []
    requires Followed(s, s', queue[0].0, queue[0].1, Adj(g, queue[0].0))
             && Enqueued(s, s', queue[0].1, queue[1..], queue')
    ensures Searching(g, src, s', done + {queue[0].0}, queue')
  {
    var (curr, d) := queue[0];
    assert queue[0] in queue && Found(g, src, s, curr);
    var done' := done + {curr};
    forall v
      ensures Found(g, src, s', v)
    {
      assert Found(g, src, s, v);
      TurnFound(g, src, s, s', curr, d, v);
    }
    forall u | u in done'
      ensures Expanded(g, s', u)
    {
      assert u in done ==> Expanded(g, s, u);
    }
    forall u, v
      ensures ParentOk(g, s', u, v, u in done')
    {
      assert ParentOk(g, s, u, v, u in done) && (u in done ==> Expanded(g, s, u));
      TurnParent(g, s, s', done, curr, d, u, v);
    }
    TurnLevels(s, s', d, Adj(g, curr), queue, queue');
    TurnWaiting(s, s', done, curr, d, Adj(g, curr), queue, queue');
  }

  /** All nodes of the graph. */
  ghost function Nodes(g: Graph, src: Node): set<Node> {
    {src} + g.Keys + set u, i | u in g && 0 <= i < |g[u]| :: g[u][i]
  }

  lemma ReachedInside(g: Graph, src: Node, s: Search, s': Search, curr: Node, d: nat)
    requires s.dist.Keys <= Nodes(g, src) && Reached(s, s', d, Adj(g, curr))
    ensures s'.dist.Keys <= Nodes(g, src)
    ensures s'.dist.Keys == s.dist.Keys || |Nodes(g, src) - s'.dist.Keys| < |Nodes(g, src) - s.dist.Keys|
  {
    forall v | v in s'.dist
      ensures v in Nodes(g, src)
    {
      if v !in s.dist {
        var i :| 0 <= i < |g[curr]| && g[curr][i] == v;
      }
    }
    assert s.dist.Keys <= s'.dist.Keys;
    if s'.dist.Keys != s.dist.Keys {
      var v :| v in s'.dist && v !in s.dist;
      Fewer(Nodes(g, src) - s'.dist.Keys, Nodes(g, src) - s.dist.Keys, v);
    }
  }

  lemma Fewer(a: set<Node>, b: set<Node>, v: Node)
    requires a <= b && v in b && v !in a
    ensures |a| < |b|
  {
    assert |a| + |b - a| == |b| by { assert a + (b - a) == b; }
    assert v in b - a;
  }

  lemma Start(g: Graph, src: Node)
    ensures Searching(g, src, Search(map[src := 0], map[]), {}, [(src, 0)])
  {
    assert Walk(g, src, src, 0);
    assert [(src, 0)][0] == (src, 0);
  }

  lemma Finish(g: Graph, src: Node, s: Search, done: set<Node>)
    requires Searching(g, src, s, done, [])
    ensures Searched(g, src, s)
  {
    forall u | u in s.dist
      ensures Expanded(g, s, u)
    {
      assert u in done;
    }
    forall u, v
      ensures ParentOk(g, s, u, v, true)
    {
      assert ParentOk(g, s, u, v, u in done);
    }
  }

  /** Fewer nodes are left to be found, or the queue is shorter. */
  ghost predicate Smaller(g: Graph, src: Node, s: Search, s': Search, queue: seq<(Node, nat)>,
                          queue': seq<(Node, nat)>) {
    var nodes := Nodes(g, src);
    && s'.dist.Keys <= nodes
    && (|nodes - s'.dist.Keys| < |nodes - s.dist.Keys| || (s'.dist.Keys == s.dist.Keys && |queue'| < |queue|))
  }

  lemma TurnDone(g: Graph, src: Node, s: Search, s': Search, done: set<Node>, queue: seq<(Node, nat)>,
                 queue': seq<(Node, nat)>)
    requires Searching(g, src, s, done, queue) && queue != [] && s.dist.Keys <= Nodes(g, src)
    requires Followed(s, s', queue[0].0, queue[0].1, Adj(g, queue[0].0))
             && Enqueued(s, s', queue[0].1, queue[1..], queue')
    ensures Searching(g, src, s', done + {queue[0].0}, queue') && Smaller(g, src, s, s', queue, queue')
  {
    Turn(g, src, s, s', done, queue, queue');
    ReachedInside(g, src, s, s', queue[0].0, queue[0].1);
    SameQueue(s, s', queue[0].1, queue[1..], queue');
  }

  /** Takes the nearest node from the queue and follows its edges, unless it is the destination. */
  method TakeTurn(g: Graph, src: Node, dst: Node, s: Search, queue: seq<(Node, nat)>, ghost done: set<Node>)
      returns (s': Search, queue': seq<(Node, nat)>)
    requires queue != [] && Searching(Seen(g, dst), src, s, done, queue) && s.dist.Keys <= Nodes(Seen(g, dst), src)
    ensures Searching(Seen(g, dst), src, s', done + {queue[0].0}, queue')
            && Smaller(Seen(g, dst), src, s, s', queue, queue')
  {
    var (curr, dist) := queue[0];
    if curr != dst {
      s', queue' := Expand(Adj(g, curr), curr, dist, s, queue[1..]);
    } else {
      s', queue' := s, queue[1..];
      Unchanged(s, curr, dist, queue');
    }
    assert Adj(Seen(g, dst), curr) == if curr == dst then [] else Adj(g, curr);
    TurnDone(Seen(g, dst), src, s, s', done, queue, queue');
  }

  /** Breadth-first search, without expanding the destination. */
  method BreadthFirst(g: Graph, src: Node, dst: Node) returns (s: Search)
    ensures Searched(Seen(g, dst), src, s)
  {
    var queue := [(src, 0)];
    s := Search(map[src := 0], map[]);
    ghost var done := {};
    Start(Seen(g, dst), src);
    while queue != []
      invariant Searching(Seen(g, dst), src, s, done, queue) && s.dist.Keys <= Nodes(Seen(g, dst), src)
      decreases |Nodes(Seen(g, dst), src) - s.dist.Keys|, |queue|
    {
      ghost var curr := queue[0].0;
      s, queue := TakeTurn(g, src, dst, s, queue, done);
      done := done + {curr};
    }
    Finish(Seen(g, dst), src, s, done);
  }

  lemma Unchanged(s: Search, curr: Node, d: nat, queue: seq<(Node, nat)>)
    ensures Followed(s, s, curr, d, []) && Enqueued(s, s, d, queue, queue)
  {
    forall v
      ensures Adopted(s, s, curr, d, [], v)
    {
      assert ParentsOf(s, v) + {} == ParentsOf(s, v);
    }
  }

  lemma SameQueue(s: Search, s': Search, d: nat, queue: seq<(Node, nat)>, queue': seq<(Node, nat)>)
    requires Enqueued(s, s', d, queue, queue')
    ensures s'.dist.Keys == s.dist.Keys ==> queue' == queue
  {
    assert |queue'| > |queue| ==> queue'[|queue|].0 in s'.dist.Keys && queue'[|queue|].0 !in s.dist.Keys;
  }

  // ---------------------------------------------------------- walking back

  /** A node next to the source from which the node is as far as it can be on a shortest path. */
  ghost predicate FirstHop(g: Graph, src: Node, s: Search, node: Node, n: Node) {
    && node in s.dist && s.dist[node] > 0 && Edge(g, src, n) && n in s.dist && s.dist[n] == 1
    && Walk(g, n, node, s.dist[node] - 1)
  }

  /** The same, by way of one parent. */
  ghost predicate FirstHopVia(g: Graph, src: Node, s: Search, node: Node, p: Node, n: Node) {
    (p == src && n == node) || FirstHop(g, src, s, p, n)
  }

  lemma ViaIsFirstHop(g: Graph, src: Node, s: Search, node: Node, p: Node, n: Node)
    requires Searched(g, src, s) && p in ParentsOf(s, node) && FirstHopVia(g, src, s, node, p, n)
    ensures FirstHop(g, src, s, node, n)
  {
    assert ParentOk(g, s, p, node, true);
    if p == src && n == node {
      assert Walk(g, n, node, 0);
    } else {
      WalkAppend(g, n, p, node, s.dist[p] - 1);
    }
  }

  lemma FirstHopIsVia(g: Graph, src: Node, s: Search, node: Node, n: Node) returns (p: Node)
    requires Searched(g, src, s) && FirstHop(g, src, s, node, n)
    ensures p in ParentsOf(s, node) && FirstHopVia(g, src, s, node, p, n)
  {
    var d := s.dist[node];
    if d == 1 {
      p := src;
    } else {
      p := WalkLast(g, n, node, d - 1);
      assert Walk(g, src, p, d - 1);
      NoShorter(g, src, s, p, d - 1);
      assert Expanded(g, s, p);
    }
    assert ParentOk(g, s, p, node, true);
  }

  /** Collects the nodes next to the source on the way back from a node. Parents are nearer, so it ends. */
  method Backtrack(ghost g: Graph, src: Node, s: Search, node: Node, found: set<Node>) returns (hops: set<Node>)
    requires Searched(g, src, s)
    ensures forall n :: n in hops <==> n in found || FirstHop(g, src, s, node, n)
    decreases if node in s.dist then s.dist[node] else 0
  {
    hops := found;
    if node == src {
      return;
    }
    var todo := if node in s.parents then s.parents[node] else {};
    ghost var done := {};
    while todo != {}
      invariant todo + done == ParentsOf(s, node)
      invariant forall n :: n in found ==> n in hops
      invariant forall p, n :: p in done && FirstHopVia(g, src, s, node, p, n) ==> n in hops
      invariant forall n :: n in hops ==> n in found || FirstHop(g, src, s, node, n)
      decreases |todo|
    {
      var parent :| parent in todo;
      assert ParentOk(g, s, parent, node, true);
      ghost var before := hops;
      if parent == src {
        hops := hops + {node};
      }
      hops := Backtrack(g, src, s, parent, hops);
      forall n | n in hops
        ensures n in found || FirstHop(g, src, s, node, n)
      {
        if n !in before {
          ViaIsFirstHop(g, src, s, node, parent, n);
        }
      }
      done, todo := done + {parent}, todo - {parent};
    }
    forall n | FirstHop(g, src, s, node, n)
      ensures n in hops
    {
      var p := FirstHopIsVia(g, src, s, node, n);
    }
  }

  // ------------------------------------------------------------- the routes

  lemma {:induction false} SeenWalk(g: Graph, dst: Node, a: Node, b: Node, k: nat)
    requires Walk(Seen(g, dst), a, b, k)
    ensures Walk(g, a, b, k)
    decreases k
  {
    if k == 0 {
    } else {
      var n :| Edge(Seen(g, dst), a, n) && Walk(Seen(g, dst), n, b, k - 1);
      SeenWalk(g, dst, n, b, k - 1);
      assert Edge(g, a, n);
    }
  }

  /** A walk to the destination may stop where it first gets there. */
  lemma {:induction false} WalkSeen(g: Graph, dst: Node, a: Node, k: nat) returns (j: nat)
    requires Walk(g, a, dst, k)
    ensures j <= k && Walk(Seen(g, dst), a, dst, j)
    decreases k
  {
    if a == dst {
      j := 0;
    } else {
      var n :| Edge(g, a, n) && Walk(g, n, dst, k - 1);
      j := WalkSeen(g, dst, n, k - 1);
      assert Edge(Seen(g, dst), a, n);
      j := j + 1;
    }
  }

  lemma SeenDistance(g: Graph, src: Node, dst: Node, d: nat)
    ensures IsDistance(g, src, dst, d) <==> IsDistance(Seen(g, dst), src, dst, d)
  {
    if IsDistance(g, src, dst, d) {
      var j := WalkSeen(g, dst, src, d);
      SeenWalk(g, dst, src, dst, j);
      forall k: nat | k < d
        ensures !Walk(Seen(g, dst), src, dst, k)
      {
        if Walk(Seen(g, dst), src, dst, k) {
          SeenWalk(g, dst, src, dst, k);
        }
      }
    }
    if IsDistance(Seen(g, dst), src, dst, d) {
      SeenWalk(g, dst, src, dst, d);
      forall k: nat | k < d
        ensures !Walk(g, src, dst, k)
      {
        if Walk(g, src, dst, k) {
          var j := WalkSeen(g, dst, src, k);
        }
      }
    }
  }

  lemma FirstHopMeaning(g: Graph, src: Node, dst: Node, s: Search, n: Node)
    requires Searched(Seen(g, dst), src, s) && src != dst
    ensures FirstHop(Seen(g, dst), src, s, dst, n) <==> OnShortestPath(g, src, dst, n)
  {
    var seen := Seen(g, dst);
    assert Edge(seen, src, n) <==> Edge(g, src, n);
    if FirstHop(seen, src, s, dst, n) {
      var d := s.dist[dst];
      SearchedDistance(seen, src, s, dst, d);
      SeenDistance(g, src, dst, d);
      SeenWalk(g, dst, n, dst, d - 1);
    }
    if OnShortestPath(g, src, dst, n) {
      var d: nat :| d > 0 && IsDistance(g, src, dst, d) && Walk(g, n, dst, d - 1);
      SeenDistance(g, src, dst, d);
      SearchedDistance(seen, src, s, dst, d);
      var j := WalkSeen(g, dst, n, d - 1);
      assert Walk(seen, src, dst, j + 1);
      assert Expanded(seen, s, src) && Found(seen, src, s, n);
      assert n != src;
    }
  }

  /** Exactly the neighbours of the source that lie on a shortest path to the destination. */
  method CalculateEcmpRoutes(g: Graph, src: Node, dst: Node) returns (hops: set<Node>)
    ensures forall n :: n in hops <==> OnShortestPath(g, src, dst, n)
  {
    if src == dst {
      return {};
    }
    var s := BreadthFirst(g, src, dst);
    forall n
      ensures FirstHop(Seen(g, dst), src, s, dst, n) <==> OnShortestPath(g, src, dst, n)
    {
      FirstHopMeaning(g, src, dst, s, n);
    }
    if dst !in s.parents {
      forall n
        ensures !OnShortestPath(g, src, dst, n)
      {
        if FirstHop(Seen(g, dst), src, s, dst, n) {
          var p := FirstHopIsVia(Seen(g, dst), src, s, dst, n);
        }
      }
      return {};
    }
    hops := Backtrack(Seen(g, dst), src, s, dst, {});
  }

  // ------------------------------------------------------------- forwarding

  /** An address of a node, reached through one given neighbour of that node if there is an attachment. */
  datatype Target = Target(owner: Node, attachment: Option<Node>)

  ghost predicate IsNextHop(g: Graph, u: Node, t: Target, n: Node) {
    if u == t.owner then false
    else if t.attachment.None? then OnShortestPath(g, u, t.owner, n)
    else if u == t.attachment.value then n == t.owner
    else OnShortestPath(g, u, t.attachment.value, n)
  }

  method CalculateTargetNextHops(g: Graph, u: Node, t: Target) returns (hops: set<Node>)
    ensures forall n :: n in hops <==> IsNextHop(g, u, t, n)
  {
    if u == t.owner {
      return {};
    }
    if t.attachment.None? {
      hops := CalculateEcmpRoutes(g, u, t.owner);
    } else if u == t.attachment.value {
      hops := {t.owner};
    } else {
      hops := CalculateEcmpRoutes(g, u, t.attachment.value);
    }
  }

  /** How many steps remain at most: the distance, plus the last step from the attachment. */
  ghost predicate Remaining(g: Graph, t: Target, u: Node, m: nat) {
    if u == t.owner then m == 0
    else if t.attachment.None? then IsDistance(g, u, t.owner, m)
    else m > 0 && IsDistance(g, u, t.attachment.value, m - 1)
  }

  lemma DistanceUnique(g: Graph, a: Node, b: Node, d: nat, e: nat)
    requires IsDistance(g, a, b, d) && IsDistance(g, a, b, e)
    ensures d == e
  {
  }

  /** A next hop on a shortest path is one step nearer. */
  lemma OneStepNearer(g: Graph, u: Node, dst: Node, n: Node) returns (d: nat)
    requires OnShortestPath(g, u, dst, n)
    ensures d > 0 && IsDistance(g, u, dst, d) && IsDistance(g, n, dst, d - 1)
  {
    d :| d > 0 && IsDistance(g, u, dst, d) && Walk(g, n, dst, d - 1);
    forall k: nat | k < d - 1
      ensures !Walk(g, n, dst, k)
    {
      var longer: nat := k + 1;
      assert Walk(g, n, dst, k) ==> Walk(g, u, dst, longer);
    }
  }

  /** Every step of forwarding leaves fewer steps. */
  lemma Nearer(g: Graph, t: Target, u: Node, n: Node) returns (m: nat, m': nat)
    requires IsNextHop(g, u, t, n)
    ensures Remaining(g, t, u, m) && Remaining(g, t, n, m') && m' < m
  {
    if t.attachment.Some? && u == t.attachment.value {
      m, m' := 1, 0;
      assert Walk(g, u, u, 0);
    } else {
      var dst := if t.attachment.None? then t.owner else t.attachment.value;
      var d := OneStepNearer(g, u, dst, n);
      m := if t.attachment.None? then d else d + 1;
      m' := if n == t.owner then 0 else m - 1;
      assert t.attachment.None? && n == t.owner ==> Walk(g, n, dst, 0);
    }
  }

  lemma RemainingUnique(g: Graph, t: Target, u: Node, m: nat, m': nat)
    requires Remaining(g, t, u, m) && Remaining(g, t, u, m')
    ensures m == m'
  {
    if u != t.owner {
      if t.attachment.None? {
        DistanceUnique(g, u, t.owner, m, m');
      } else {
        DistanceUnique(g, u, t.attachment.value, m - 1, m' - 1);
      }
    }
  }

  /** The nodes a packet passes, each chosen among the next hops of the one before. */
  ghost predicate IsRoute(g: Graph, t: Target, route: seq<Node>) {
    |route| > 0 && forall i, j :: 0 <= i < |route| && j == i + 1 && j < |route| ==> IsNextHop(g, route[i], t, route[j])
  }

  lemma {:induction false} RouteShrinks(g: Graph, t: Target, route: seq<Node>, i: nat, j: nat) returns (m: nat, m': nat)
    requires IsRoute(g, t, route) && i < j < |route|
    ensures Remaining(g, t, route[i], m) && Remaining(g, t, route[j], m') && m' + (j - i) <= m
    decreases j
  {
    assert IsNextHop(g, route[j - 1], t, route[j]);
    m, m' := Nearer(g, t, route[j - 1], route[j]);
    if i < j - 1 {
      var a, b := RouteShrinks(g, t, route, i, j - 1);
      RemainingUnique(g, t, route[j - 1], m, b);
      m := a;
    }
  }

  /** Whatever next hops are chosen, no node is passed twice. */
  lemma LoopFree(g: Graph, t: Target, route: seq<Node>, i: nat, j: nat)
    requires IsRoute(g, t, route) && i < j < |route|
    ensures route[i] != route[j]
  {
    var m, m' := RouteShrinks(g, t, route, i, j);
    if route[i] == route[j] {
      RemainingUnique(g, t, route[i], m, m');
    }
  }

  /** From a node with a way to the target, a packet can go on until it is at the owner, and gets there in time. */
  lemma ArrivesAtOwner(g: Graph, t: Target, route: seq<Node>, m: nat)
    requires IsRoute(g, t, route) && Remaining(g, t, route[0], m)
    ensures |route| <= m + 1
    ensures route[|route| - 1] == t.owner || HasNextHop(g, t, route[|route| - 1])
  {
    var last := |route| - 1;
    var rest := m;
    if last > 0 {
      var a, b := RouteShrinks(g, t, route, 0, last);
      RemainingUnique(g, t, route[0], m, a);
      rest := b;
    }
    var u := route[last];
    if u != t.owner {
      NextHopExists(g, t, u, rest);
    }
  }

  ghost predicate HasNextHop(g: Graph, t: Target, u: Node) {
    exists n :: IsNextHop(g, u, t, n)
  }

  lemma NextHopExists(g: Graph, t: Target, u: Node, m: nat)
    requires u != t.owner && Remaining(g, t, u, m)
    ensures HasNextHop(g, t, u)
  {
    if t.attachment.Some? && u == t.attachment.value {
      assert IsNextHop(g, u, t, t.owner);
    } else {
      var dst := if t.attachment.None? then t.owner else t.attachment.value;
      var d := if t.attachment.None? then m else m - 1;
      assert IsDistance(g, u, dst, d) && d > 0;
      var n :| Edge(g, u, n) && Walk(g, n, dst, d - 1);
      assert OnShortestPath(g, u, dst, n);
      assert IsNextHop(g, u, t, n);
    }
  }
}
