/**
  What Dijkstra's and A*'s searches have in common: weights of walks, the
  settled/frontier invariant with its lower bound on every walk, and the
  reconstruction of a path from predecessor links. Weights are reals; the
  infinite distance of an unreached node is an absent key.
 */
module BestFirst {
  import opened Collections
  import opened Multigraph

  type Weights = Edge -> real
  type Heuristic = NodeId -> real
  type Links = map<NodeId, (NodeId, EdgeId)>

  datatype WeightedPath = WeightedPath(nodes: seq<NodeId>, edges: seq<EdgeId>, totalWeight: real)

  ghost predicate NonNegative(g: Graph, w: Weights) {
    forall e :: e in g.edges ==> w(g.edges[e]) >= 0.0
  }

  /** The heuristic never drops by more than an edge costs. */
  ghost predicate Consistent(g: Graph, w: Weights, h: Heuristic) {
    forall e :: e in g.edges ==> h(g.edges[e].from) <= w(g.edges[e]) + h(g.edges[e].to)
  }

  ghost function Weight(g: Graph, w: Weights, es: seq<EdgeId>): real
    requires forall e :: e in es ==> e in g.edges
  {
    if es == [] then 0.0 else Weight(g, w, es[..|es| - 1]) + w(g.edges[es[|es| - 1]])
  }

  /** Weights add up along a walk, and a walk of one edge weighs what its edge does. */
  lemma {:induction false} WeightOfJoin(g: Graph, w: Weights, a: seq<EdgeId>, b: seq<EdgeId>)
    requires (forall e :: e in a ==> e in g.edges) && (forall e :: e in b ==> e in g.edges)
    ensures Weight(g, w, a + b) == Weight(g, w, a) + Weight(g, w, b)
    ensures forall e :: e in g.edges ==> Weight(g, w, [e]) == w(g.edges[e])
    decreases |b|
  {
    forall e | e in g.edges ensures Weight(g, w, [e]) == w(g.edges[e]) {
      assert [e][..0] == [];
    }
    if b == [] {
      assert a + b == a;
    } else {
      var n := |b| - 1;
      WeightOfJoin(g, w, a, b[..n]);
      assert (a + b)[..|a + b| - 1] == a + b[..n];
    }
  }

  /** d is the weight of some walk from u to v, and no walk is lighter. */
  ghost predicate LeastWeight(g: Graph, w: Weights, u: NodeId, v: NodeId, d: real) {
    && (exists es :: IsWalk(g, u, es, v) && (WalkEdgesExist(g, u, es, v); Weight(g, w, es) == d))
    && (forall es :: IsWalk(g, u, es, v) ==> (WalkEdgesExist(g, u, es, v); d <= Weight(g, w, es)))
  }

  lemma LeastWeightUnique(g: Graph, w: Weights, u: NodeId, v: NodeId, d: real, d': real)
    requires LeastWeight(g, w, u, v, d) && LeastWeight(g, w, u, v, d')
    ensures d == d'
  {
  }

  /** A real path from u to v along the graph's edges whose weight is the recorded total. */
  ghost predicate IsPath(g: Graph, w: Weights, u: NodeId, v: NodeId, p: WeightedPath) {
    && IsWalk(g, u, p.edges, v)
    && (WalkEdgesExist(g, u, p.edges, v);
        p.nodes == NodeSeq(g, u, p.edges) && p.totalWeight == Weight(g, w, p.edges))
  }

  /** What both searches promise about a path query. */
  ghost predicate ShortestPathAnswer(g: Graph, w: Weights, u: NodeId, v: NodeId, r: Option<WeightedPath>) {
    && (r.None? <==> !Reach(g, u, v))
    && (r.Some? ==> IsPath(g, w, u, v, r.value) && LeastWeight(g, w, u, v, r.value.totalWeight))
  }

  /** Any two correct answers to the same query agree on existence and on the weight. */
  lemma AnswersAgree(g: Graph, w: Weights, u: NodeId, v: NodeId, r: Option<WeightedPath>, s: Option<WeightedPath>)
    requires ShortestPathAnswer(g, w, u, v, r) && ShortestPathAnswer(g, w, u, v, s)
    ensures r.None? <==> s.None?
    ensures r.Some? && s.Some? ==> r.value.totalWeight == s.value.totalWeight
  {
    if r.Some? && s.Some? {
      LeastWeightUnique(g, w, u, v, r.value.totalWeight, s.value.totalWeight);
    }
  }

  // --------------------------------------------------------------- the frontier

  /** Predecessor links: each known node but the start hangs off a node settled before it. */
  ghost predicate Linked(g: Graph, w: Weights, dist: map<NodeId, real>, links: Links, settled: seq<NodeId>, v: NodeId)
    requires v in dist
  {
    && v in links
    && var (u, e) := links[v];
    && e in g.edges && g.edges[e].from == u && g.edges[e].to == v
    && u in settled && u in dist && dist[v] == dist[u] + w(g.edges[e])
    && (forall k :: 0 <= k < |settled| && settled[k] == v ==> u in settled[..k])
  }

  ghost predicate Tree(g: Graph, w: Weights, start: NodeId, dist: map<NodeId, real>, links: Links,
                       settled: seq<NodeId>) {
    && start in dist && dist[start] == 0.0
    && (forall v :: v in dist ==> dist[v] >= 0.0)
    && NoDup(settled) && Elems(settled) <= dist.Keys
    && (forall v :: v in dist && v != start ==> Linked(g, w, dist, links, settled, v))
  }

  /** Edges out of settled nodes are relaxed, except those still in `todo`. */
  ghost predicate Relaxed(g: Graph, w: Weights, dist: map<NodeId, real>, settled: seq<NodeId>, todo: set<EdgeId>) {
    forall e :: e in g.edges && e !in todo && g.edges[e].from in settled && g.edges[e].from in dist ==>
      g.edges[e].to in dist && dist[g.edges[e].to] <= dist[g.edges[e].from] + w(g.edges[e])
  }

  /** Settled nodes are at most m away from the goal estimate, the others at least m. */
  ghost predicate Separated(h: Heuristic, dist: map<NodeId, real>, settled: seq<NodeId>, m: real) {
    forall v :: v in dist ==> if v in settled then dist[v] + h(v) <= m else m <= dist[v] + h(v)
  }

  ghost predicate Frontier(g: Graph, w: Weights, h: Heuristic, start: NodeId, dist: map<NodeId, real>, links: Links,
                           settled: seq<NodeId>, todo: set<EdgeId>, m: real) {
    && Tree(g, w, start, dist, links, settled)
    && Relaxed(g, w, dist, settled, todo)
    && Separated(h, dist, settled, m)
  }

  /** Every walk either ends in a settled node it cannot undercut, or is at least m long with the estimate. */
  lemma {:induction false} WalkBound(g: Graph, w: Weights, h: Heuristic, start: NodeId, dist: map<NodeId, real>,
                                     links: Links, settled: seq<NodeId>, m: real, es: seq<EdgeId>, x: NodeId)
    requires Consistent(g, w, h) && Frontier(g, w, h, start, dist, links, settled, {}, m)
    requires IsWalk(g, start, es, x) && forall e :: e in es ==> e in g.edges
    ensures (x in settled && x in dist && dist[x] <= Weight(g, w, es)) || m <= Weight(g, w, es) + h(x)
    decreases |es|
  {
    if es != [] {
      var e := es[|es| - 1];
      WalkBound(g, w, h, start, dist, links, settled, m, es[..|es| - 1], g.edges[e].from);
      hide Tree;
    }
  }

  lemma SettleKeepsTree(g: Graph, w: Weights, start: NodeId, dist: map<NodeId, real>, links: Links,
                        settled: seq<NodeId>, node: NodeId)
    requires Tree(g, w, start, dist, links, settled) && node in dist && node !in settled
    ensures Tree(g, w, start, dist, links, settled + [node])
  {
    var settled' := settled + [node];
    assert Elems(settled') == Elems(settled) + {node};
    forall v | v in dist && v != start ensures Linked(g, w, dist, links, settled', v) {
      assert Linked(g, w, dist, links, settled, v);
      assert links[v].0 in settled';
      forall k | 0 <= k < |settled'| && settled'[k] == v ensures links[v].0 in settled'[..k] {
        assert settled'[..k] == if k < |settled| then settled[..k] else settled;
      }
    }
    hide Linked;
  }

  lemma SettleKeepsRelaxed(g: Graph, w: Weights, dist: map<NodeId, real>, settled: seq<NodeId>, node: NodeId)
    requires Relaxed(g, w, dist, settled, {})
    ensures Relaxed(g, w, dist, settled + [node], Out(g, node))
  {
  }

  lemma SettleKeepsSeparated(h: Heuristic, dist: map<NodeId, real>, settled: seq<NodeId>, m: real, node: NodeId,
                             m': real)
    requires Separated(h, dist, settled, m) && m <= m'
    requires node in dist && m' == dist[node] + h(node)
    requires forall v :: v in dist && v !in settled ==> m' <= dist[v] + h(v)
    ensures Separated(h, dist, settled + [node], m')
  {
  }

  /** Settling an unsettled node of least estimate. */
  lemma SettleNode(g: Graph, w: Weights, h: Heuristic, start: NodeId, dist: map<NodeId, real>, links: Links,
                   settled: seq<NodeId>, m: real, node: NodeId, m': real)
    requires Frontier(g, w, h, start, dist, links, settled, {}, m) && m <= m'
    requires node in dist && node !in settled && m' == dist[node] + h(node)
    requires forall v :: v in dist && v !in settled ==> m' <= dist[v] + h(v)
    ensures Frontier(g, w, h, start, dist, links, settled + [node], Out(g, node), m')
  {
    hide Tree, Relaxed, Separated;
    SettleKeepsTree(g, w, start, dist, links, settled, node);
    SettleKeepsRelaxed(g, w, dist, settled, node);
    SettleKeepsSeparated(h, dist, settled, m, node, m');
  }

  /** A settled target cannot be improved by an edge out of the node settled last. */
  lemma SettledTarget(g: Graph, w: Weights, h: Heuristic, start: NodeId, dist: map<NodeId, real>, links: Links,
                      settled: seq<NodeId>, todo: set<EdgeId>, m: real, e: EdgeId)
    requires Consistent(g, w, h) && Frontier(g, w, h, start, dist, links, settled, todo, m)
    requires e in g.edges && g.edges[e].from in dist && dist[g.edges[e].from] + h(g.edges[e].from) == m
    requires g.edges[e].to in settled
    ensures g.edges[e].to in dist && dist[g.edges[e].to] <= dist[g.edges[e].from] + w(g.edges[e])
  {
    hide Linked, Relaxed;
    assert g.edges[e].to in Elems(settled);
  }

  /** An edge that cannot improve its target needs no change. */
  lemma RelaxNoChange(g: Graph, w: Weights, h: Heuristic, start: NodeId, dist: map<NodeId, real>, links: Links,
                      settled: seq<NodeId>, todo: set<EdgeId>, m: real, e: EdgeId)
    requires Frontier(g, w, h, start, dist, links, settled, todo, m)
    requires e in g.edges && g.edges[e].from in dist && g.edges[e].to in dist
    requires dist[g.edges[e].to] <= dist[g.edges[e].from] + w(g.edges[e])
    ensures Frontier(g, w, h, start, dist, links, settled, todo - {e}, m)
  {
    hide Tree, Separated;
  }

  lemma ImproveKeepsRelaxed(g: Graph, w: Weights, dist: map<NodeId, real>, settled: seq<NodeId>, todo: set<EdgeId>,
                            e: EdgeId, next: real)
    requires Relaxed(g, w, dist, settled, todo)
    requires e in g.edges && g.edges[e].from in dist && g.edges[e].to !in settled && g.edges[e].from in settled
    requires next == dist[g.edges[e].from] + w(g.edges[e])
    requires g.edges[e].to in dist ==> next < dist[g.edges[e].to]
    ensures Relaxed(g, w, dist[g.edges[e].to := next], settled, todo - {e})
  {
  }

  lemma ImproveKeepsSeparated(h: Heuristic, dist: map<NodeId, real>, settled: seq<NodeId>, m: real, to: NodeId,
                              next: real)
    requires Separated(h, dist, settled, m) && to !in settled && m <= next + h(to)
    ensures Separated(h, dist[to := next], settled, m)
  {
  }

  lemma RelaxKeepsTree(g: Graph, w: Weights, start: NodeId, dist: map<NodeId, real>, links: Links,
                       settled: seq<NodeId>, e: EdgeId)
    requires NonNegative(g, w) && Tree(g, w, start, dist, links, settled)
    requires e in g.edges && g.edges[e].from in settled && g.edges[e].from in dist && g.edges[e].to !in settled
    requires g.edges[e].to in dist ==> dist[g.edges[e].from] + w(g.edges[e]) < dist[g.edges[e].to]
    ensures var node, to := g.edges[e].from, g.edges[e].to;
            Tree(g, w, start, dist[to := dist[node] + w(g.edges[e])], links[to := (node, e)], settled)
  {
    hide Linked;
    var node, to := g.edges[e].from, g.edges[e].to;
    var dist', links' := dist[to := dist[node] + w(g.edges[e])], links[to := (node, e)];
    forall v | v in dist' && v != start ensures Linked(g, w, dist', links', settled, v) {
      ImproveKeepsLinked(g, w, dist, links, settled, e, v);
    }
  }

  lemma ImproveKeepsLinked(g: Graph, w: Weights, dist: map<NodeId, real>, links: Links,
                           settled: seq<NodeId>, e: EdgeId, v: NodeId)
    requires e in g.edges && g.edges[e].from in settled && g.edges[e].from in dist && g.edges[e].to !in settled
    requires v != g.edges[e].to ==> v in dist && Linked(g, w, dist, links, settled, v)
    ensures var node, to := g.edges[e].from, g.edges[e].to;
            Linked(g, w, dist[to := dist[node] + w(g.edges[e])], links[to := (node, e)], settled, v)
  {
  }

  /** Relaxing an edge out of the node settled last. */
  lemma RelaxEdge(g: Graph, w: Weights, h: Heuristic, start: NodeId, dist: map<NodeId, real>, links: Links,
                  settled: seq<NodeId>, todo: set<EdgeId>, m: real, e: EdgeId)
    requires NonNegative(g, w) && Consistent(g, w, h)
    requires Frontier(g, w, h, start, dist, links, settled, todo, m)
    requires e in g.edges && g.edges[e].from in settled && g.edges[e].from in dist
    requires dist[g.edges[e].from] + h(g.edges[e].from) == m
    requires g.edges[e].to in dist ==> dist[g.edges[e].from] + w(g.edges[e]) < dist[g.edges[e].to]
    ensures var node, to := g.edges[e].from, g.edges[e].to;
            to !in settled && node != to &&
            Frontier(g, w, h, start, dist[to := dist[node] + w(g.edges[e])], links[to := (node, e)], settled,
                     todo - {e}, m)
  {
    hide Tree, Relaxed, Separated;
    var node, to := g.edges[e].from, g.edges[e].to;
    if to in settled {
      SettledTarget(g, w, h, start, dist, links, settled, todo, m, e);
      assert false;
    }
    var next := dist[node] + w(g.edges[e]);
    RelaxKeepsTree(g, w, start, dist, links, settled, e);
    ImproveKeepsRelaxed(g, w, dist, settled, todo, e, next);
    ImproveKeepsSeparated(h, dist, settled, m, to, next);
  }

  // ------------------------------------------------------------- reconstruction

  lemma {:induction false} PrependEdge(g: Graph, w: Weights, e: EdgeId, es: seq<EdgeId>, v: NodeId)
    requires e in g.edges && IsWalk(g, g.edges[e].to, es, v) && forall x :: x in es ==> x in g.edges
    ensures IsWalk(g, g.edges[e].from, [e] + es, v) && forall x :: x in [e] + es ==> x in g.edges
    ensures Weight(g, w, [e] + es) == w(g.edges[e]) + Weight(g, w, es)
    decreases |es|
  {
    var full := [e] + es;
    if es == [] {
      EdgeWalk(g, e);
      assert full == [e] && full[..0] == [];
      assert Weight(g, w, full) == Weight(g, w, []) + w(g.edges[e]);
    } else {
      var n := |es| - 1;
      PrependEdge(g, w, e, es[..n], g.edges[es[n]].from);
      assert full[..|full| - 1] == [e] + es[..n];
    }
  }

  /** Position in the settling order, one past the end for nodes not settled. */
  ghost function Rank(settled: seq<NodeId>, v: NodeId): (r: nat)
    ensures r <= |settled|
    ensures if r < |settled| then settled[r] == v else v !in settled
  {
    if v in settled then var k :| 0 <= k < |settled| && settled[k] == v; k else |settled|
  }

  lemma RankFalls(g: Graph, w: Weights, start: NodeId, dist: map<NodeId, real>, links: Links, settled: seq<NodeId>,
                  v: NodeId)
    requires Tree(g, w, start, dist, links, settled) && v in dist && v != start
    ensures Linked(g, w, dist, links, settled, v)
    ensures Rank(settled, links[v].0) < Rank(settled, v)
  {
    assert Linked(g, w, dist, links, settled, v);
    var u := links[v].0;
    var r := Rank(settled, v);
    if r < |settled| {
      assert u in settled[..r];
      var k :| 0 <= k < r && settled[k] == u;
      assert Rank(settled, u) == k;
    }
  }

  /** Follow the links back from `to`; the lists are filled backwards and reversed at the end. */
  method ReconstructPath(ghost g: Graph, ghost w: Weights, ghost dist: map<NodeId, real>, ghost settled: seq<NodeId>,
                         start: NodeId, to: NodeId, links: Links, totalWeight: real)
    returns (p: WeightedPath)
    requires Tree(g, w, start, dist, links, settled) && to in dist && dist[to] == totalWeight
    ensures IsPath(g, w, start, to, p) && p.totalWeight == totalWeight
  {
    var nodes, edges, current := [to], [], to;
    assert Reversed<EdgeId>([]) == [];
    assert Reversed([to]) == [to];
    while current != start
      invariant current in dist
      invariant IsWalk(g, current, Reversed(edges), to) && forall e :: e in Reversed(edges) ==> e in g.edges
      invariant dist[current] + Weight(g, w, Reversed(edges)) == totalWeight
      invariant Reversed(nodes) == NodeSeq(g, current, Reversed(edges))
      decreases Rank(settled, current)
    {
      RankFalls(g, w, start, dist, links, settled, current);
      hide Tree;
      if current in links {
        var (prevNode, edgeId) := links[current];
        PrependEdge(g, w, edgeId, Reversed(edges), to);
        NodeSeqHead(g, edgeId, Reversed(edges), to);
        ReversedSnoc(edges, edgeId);
        ReversedSnoc(nodes, prevNode);
        nodes := nodes + [prevNode];
        edges := edges + [edgeId];
        current := prevNode;
      } else {
        break;
      }
    }
    p := WeightedPath(Reversed(nodes), Reversed(edges), totalWeight);
  }

  /** A settled-order tree carries, for every known node, a walk of exactly the recorded weight. */
  lemma {:induction false} TreeWalk(g: Graph, w: Weights, start: NodeId, dist: map<NodeId, real>, links: Links,
                                    settled: seq<NodeId>, v: NodeId) returns (es: seq<EdgeId>)
    requires Tree(g, w, start, dist, links, settled) && v in dist
    ensures IsWalk(g, start, es, v) && (forall e :: e in es ==> e in g.edges) && Weight(g, w, es) == dist[v]
    decreases Rank(settled, v)
  {
    if v == start {
      es := [];
    } else {
      RankFalls(g, w, start, dist, links, settled, v);
      var (u, e) := links[v];
      var pre := TreeWalk(g, w, start, dist, links, settled, u);
      WalkSnoc(g, start, pre, e);
      es := pre + [e];
      assert es[..|es| - 1] == pre;
    }
  }

  /** When m is the estimate of an unsettled (or unreachable-bound) target, its recorded weight is least. */
  lemma SettledIsLeast(g: Graph, w: Weights, h: Heuristic, start: NodeId, dist: map<NodeId, real>, links: Links,
                       settled: seq<NodeId>, m: real, v: NodeId)
    requires Consistent(g, w, h) && Frontier(g, w, h, start, dist, links, settled, {}, m)
    requires v in dist && dist[v] + h(v) <= m
    ensures LeastWeight(g, w, start, v, dist[v])
  {
    var walk := TreeWalk(g, w, start, dist, links, settled, v);
    forall es | IsWalk(g, start, es, v) ensures (WalkEdgesExist(g, start, es, v); dist[v] <= Weight(g, w, es)) {
      WalkEdgesExist(g, start, es, v);
      WalkBound(g, w, h, start, dist, links, settled, m, es, v);
    }
  }

  /** With nothing left to settle, every walk ends in a settled node. */
  lemma ExhaustedReach(g: Graph, w: Weights, h: Heuristic, start: NodeId, dist: map<NodeId, real>, links: Links,
                       settled: seq<NodeId>, m: real, v: NodeId)
    requires Frontier(g, w, h, start, dist, links, settled, {}, m)
    requires forall x :: x in dist ==> x in settled
    ensures Reach(g, start, v) <==> v in dist
  {
    if v in dist {
      var es := TreeWalk(g, w, start, dist, links, settled, v);
    }
    if Reach(g, start, v) {
      var es :| IsWalk(g, start, es, v);
      WalkStaysInside(g, dist.Keys, start, es, v);
    }
  }

  // ------------------------------------------------------------------- the heap

  ghost predicate IsLeast<E(!new)>(heap: multiset<E>, key: E -> real, x: E) {
    x in heap && forall y :: y in heap ==> key(x) <= key(y)
  }

  lemma {:induction false} LeastEntryExists<E(!new)>(heap: multiset<E>, key: E -> real) returns (least: E)
    requires heap != multiset{}
    ensures IsLeast(heap, key, least)
    decreases |heap|
  {
    var x :| x in heap;
    var rest := heap - multiset{x};
    assert heap == rest + multiset{x};
    if rest == multiset{} {
      least := x;
    } else {
      var y := LeastEntryExists(rest, key);
      least := if key(x) <= key(y) then x else y;
    }
  }

  /** BinaryHeap::pop under the reversed order: some entry of least key, ties broken arbitrarily. */
  method PopLeast<E(!new, ==)>(heap: multiset<E>, key: E -> real) returns (x: E, rest: multiset<E>)
    requires heap != multiset{}
    ensures x in heap && rest == heap - multiset{x}
    ensures forall y :: y in heap ==> key(x) <= key(y)
  {
    ghost var least := LeastEntryExists(heap, key);
    x :| x in heap && forall y :: y in heap ==> key(x) <= key(y);
    rest := heap - multiset{x};
  }
}
