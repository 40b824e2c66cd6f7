/**
  Breadth-first search: the wavefront invariant shared by the four searches that
  count hops, and the two simplest of them, `bfs_distances` and `shortest_path`.
 */
module Hops {
  import opened Collections
  import opened Multigraph

  ghost predicate HopWalk(g: Graph, s: NodeId, k: nat, v: NodeId) {
    exists es :: IsWalk(g, s, es, v) && |es| == k
  }

  /** Some walk from s to v has k edges and none has fewer. */
  ghost predicate HopDistance(g: Graph, s: NodeId, v: NodeId, k: nat) {
    HopWalk(g, s, k, v) && forall es :: IsWalk(g, s, es, v) ==> k <= |es|
  }

  // --------------------------------------------------------------- the wavefront

  /** The queue is sorted by distance and spans the levels `level` and `level + 1`; left nodes are at most at
      `level`. */
  ghost predicate Wavefront(dist: map<NodeId, nat>, queue: seq<NodeId>, level: nat) {
    && NoDup(queue) && (forall v :: v in queue ==> v in dist)
    && (forall i, j :: 0 <= i < j < |queue| ==> dist[queue[i]] <= dist[queue[j]])
    && (forall v :: v in dist ==> if v in queue then level <= dist[v] <= level + 1 else dist[v] <= level)
  }

  /** The edges looked at so far: those leaving a node that has left the queue, except the ones in `todo`. */
  ghost predicate Seen(g: Graph, dist: map<NodeId, nat>, queue: seq<NodeId>, todo: set<EdgeId>, e: EdgeId) {
    e in g.edges && e !in todo && g.edges[e].from in dist && g.edges[e].from !in queue
  }

  ghost predicate Scanned(g: Graph, dist: map<NodeId, nat>, queue: seq<NodeId>, todo: set<EdgeId>) {
    forall e :: Seen(g, dist, queue, todo, e) ==>
      g.edges[e].to in dist && dist[g.edges[e].to] <= dist[g.edges[e].from] + 1
  }

  ghost predicate Rooted(g: Graph, s: NodeId, dist: map<NodeId, nat>) {
    && s in dist && dist[s] == 0
    && dist.Keys <= g.nodes.Keys + {s}
    && (forall v :: v in dist ==> HopWalk(g, s, dist[v], v))
  }

  ghost predicate Bfs(g: Graph, s: NodeId, dist: map<NodeId, nat>, queue: seq<NodeId>, todo: set<EdgeId>, level: nat) {
    Rooted(g, s, dist) && Wavefront(dist, queue, level) && Scanned(g, dist, queue, todo)
  }

  lemma BfsStart(g: Graph, s: NodeId)
    ensures Bfs(g, s, map[s := 0], [s], {}, 0)
  {
    assert IsWalk(g, s, [], s);
  }

  lemma PopWavefront(dist: map<NodeId, nat>, queue: seq<NodeId>, level: nat)
    requires Wavefront(dist, queue, level) && queue != []
    ensures queue[0] in dist && level <= dist[queue[0]]
    ensures Wavefront(dist, queue[1..], dist[queue[0]]) && queue[0] !in queue[1..]
  {
    assert forall v :: v in queue <==> v == queue[0] || v in queue[1..];
  }

  /** Taking the front node off the queue leaves its edges to be looked at. */
  lemma BfsPop(g: Graph, s: NodeId, dist: map<NodeId, nat>, queue: seq<NodeId>, level: nat)
    requires Bfs(g, s, dist, queue, {}, level) && queue != []
    ensures queue[0] in dist && level <= dist[queue[0]] && queue[0] !in queue[1..]
    ensures Bfs(g, s, dist, queue[1..], Out(g, queue[0]), dist[queue[0]])
    ensures forall e :: Seen(g, dist, queue[1..], Out(g, queue[0]), e) <==> Seen(g, dist, queue, {}, e)
  {
    PopWavefront(dist, queue, level);
    hide Rooted, Wavefront;
    assert forall v :: v in queue <==> v == queue[0] || v in queue[1..];
  }

  lemma PushWavefront(dist: map<NodeId, nat>, queue: seq<NodeId>, level: nat, v: NodeId)
    requires Wavefront(dist, queue, level) && v !in dist
    ensures Wavefront(dist[v := level + 1], queue + [v], level)
  {
  }

  lemma PushRooted(g: Graph, s: NodeId, dist: map<NodeId, nat>, e: EdgeId)
    requires Rooted(g, s, dist) && WellFormed(g) && e in g.edges
    requires g.edges[e].from in dist && g.edges[e].to !in dist
    ensures Rooted(g, s, dist[g.edges[e].to := dist[g.edges[e].from] + 1])
  {
    assert HopWalk(g, s, dist[g.edges[e].from], g.edges[e].from);
    var es :| IsWalk(g, s, es, g.edges[e].from) && |es| == dist[g.edges[e].from];
    WalkSnoc(g, s, es, e);
    assert |es + [e]| == dist[g.edges[e].from] + 1;
    assert HopWalk(g, s, dist[g.edges[e].from] + 1, g.edges[e].to);
    hide HopWalk;
  }

  /** Discovering the target of an edge out of the node popped last. */
  lemma BfsDiscover(g: Graph, s: NodeId, dist: map<NodeId, nat>, queue: seq<NodeId>, todo: set<EdgeId>, level: nat,
                    e: EdgeId)
    requires WellFormed(g) && Bfs(g, s, dist, queue, todo, level) && e in todo && e in g.edges
    requires g.edges[e].from in dist && g.edges[e].from !in queue && dist[g.edges[e].from] == level
    requires g.edges[e].to !in dist
    ensures Bfs(g, s, dist[g.edges[e].to := level + 1], queue + [g.edges[e].to], todo - {e}, level)
    ensures forall x :: Seen(g, dist[g.edges[e].to := level + 1], queue + [g.edges[e].to], todo - {e}, x) <==>
                        Seen(g, dist, queue, todo, x) || x == e
  {
    PushWavefront(dist, queue, level, g.edges[e].to);
    PushRooted(g, s, dist, e);
    hide Rooted, Wavefront;
  }

  /** An edge to a known node changes nothing but the edges looked at. */
  lemma BfsKnown(g: Graph, s: NodeId, dist: map<NodeId, nat>, queue: seq<NodeId>, todo: set<EdgeId>, level: nat,
                 e: EdgeId)
    requires Bfs(g, s, dist, queue, todo, level) && e in todo && e in g.edges
    requires g.edges[e].from in dist && g.edges[e].from !in queue && dist[g.edges[e].from] == level
    requires g.edges[e].to in dist
    ensures Bfs(g, s, dist, queue, todo - {e}, level)
    ensures forall x :: Seen(g, dist, queue, todo - {e}, x) <==> Seen(g, dist, queue, todo, x) || x == e
  {
    hide Rooted;
  }

  /** Every walk ends in a node already known at most that far away, or is longer than the current level. */
  lemma {:induction false} WalkBound(g: Graph, s: NodeId, dist: map<NodeId, nat>, queue: seq<NodeId>, level: nat,
                                     es: seq<EdgeId>, x: NodeId)
    requires Bfs(g, s, dist, queue, {}, level) && IsWalk(g, s, es, x)
    ensures (x in dist && dist[x] <= |es|) || (queue != [] && level + 1 <= |es|)
    decreases |es|
  {
    if es != [] {
      var e := es[|es| - 1];
      WalkBound(g, s, dist, queue, level, es[..|es| - 1], g.edges[e].from);
      if g.edges[e].from in dist && g.edges[e].from !in queue {
        assert Seen(g, dist, queue, {}, e);
      }
    }
  }

  /** At any time between two pops, every recorded distance is already the hop distance. */
  lemma BfsExact(g: Graph, s: NodeId, dist: map<NodeId, nat>, queue: seq<NodeId>, level: nat, v: NodeId)
    requires Bfs(g, s, dist, queue, {}, level) && v in dist
    ensures HopDistance(g, s, v, dist[v])
  {
    forall es | IsWalk(g, s, es, v) ensures dist[v] <= |es| {
      WalkBound(g, s, dist, queue, level, es, v);
    }
  }

  lemma BfsDone(g: Graph, s: NodeId, dist: map<NodeId, nat>, level: nat)
    requires Bfs(g, s, dist, [], {}, level)
    ensures forall v :: v in dist <==> Reach(g, s, v)
    ensures forall v :: v in dist ==> HopDistance(g, s, v, dist[v])
  {
    forall v ensures v in dist <==> Reach(g, s, v) {
      if v in dist {
        var es :| IsWalk(g, s, es, v) && |es| == dist[v];
      }
      if Reach(g, s, v) {
        var es :| IsWalk(g, s, es, v);
        WalkBound(g, s, dist, [], level, es, v);
      }
    }
    hide HopDistance;
    forall v | v in dist ensures HopDistance(g, s, v, dist[v]) {
      BfsExact(g, s, dist, [], level, v);
    }
  }

  /** The queue is ordered by distance. */
  lemma FrontIsLeast(g: Graph, s: NodeId, dist: map<NodeId, nat>, queue: seq<NodeId>, level: nat)
    requires Bfs(g, s, dist, queue, {}, level) && queue != []
    ensures queue[0] in dist && Wavefront(dist, queue, level)
    ensures forall x :: x in queue ==> x in dist && dist[queue[0]] <= dist[x]
  {
    hide Rooted, Scanned, NoDup;
  }

  lemma HopDistanceUnique(g: Graph, s: NodeId, v: NodeId, k: nat, k': nat)
    requires HopDistance(g, s, v, k) && HopDistance(g, s, v, k')
    ensures k == k'
  {
  }

  // --------------------------------------------------------------- bfs_distances

  /** `Unreached` stands for the initial maximal distance. */
  datatype Hop = Unreached | At(hops: nat)

  ghost function Reached(distances: map<NodeId, Hop>): map<NodeId, nat> {
    map v | v in distances && distances[v].At? :: distances[v].hops
  }

  method BfsDistances(g: Graph, source: NodeId) returns (distances: map<NodeId, Hop>)
    requires WellFormed(g)
    ensures distances.Keys == g.nodes.Keys + {source}
    ensures forall v :: v in distances ==> (distances[v].At? <==> Reach(g, source, v))
    ensures forall v :: v in distances && distances[v].At? ==> HopDistance(g, source, v, distances[v].hops)
  {
    distances := map v | v in g.nodes :: Unreached;
    distances := distances[source := At(0)];
    var queue := [source];
    BfsStart(g, source);
    assert Reached(distances) == map[source := 0];
    ghost var level, left := 0, g.nodes.Keys + {source};
    hide Bfs, HopDistance, Reach;
    while queue != []
      invariant distances.Keys == g.nodes.Keys + {source}
      invariant Bfs(g, source, Reached(distances), queue, {}, level)
      invariant forall v :: v in distances && (distances[v] == Unreached || v in queue) ==> v in left
      invariant forall v :: v in queue ==> v in distances
      decreases left
    {
      BfsPop(g, source, Reached(distances), queue, level);
      var current := queue[0];
      assert current in left;
      level := Reached(distances)[current];
      queue := queue[1..];
      left := left - {current};
      distances, queue := ScanOutgoing(g, source, current, distances, queue, level, left);
    }
    BfsDone(g, source, Reached(distances), level);
  }

  method ScanOutgoing(g: Graph, ghost source: NodeId, current: NodeId, distances: map<NodeId, Hop>, queue: seq<NodeId>,
                      ghost level: nat, ghost left: set<NodeId>)
    returns (distances': map<NodeId, Hop>, queue': seq<NodeId>)
    requires WellFormed(g) && distances.Keys == g.nodes.Keys + {source}
    requires Bfs(g, source, Reached(distances), queue, Out(g, current), level)
    requires current in distances && distances[current] == At(level) && current !in queue
    requires forall v :: v in distances && (distances[v] == Unreached || v in queue) ==> v in left
    requires forall v :: v in queue ==> v in distances
    ensures distances'.Keys == distances.Keys
    ensures Bfs(g, source, Reached(distances'), queue', {}, level)
    ensures forall v :: v in distances' && (distances'[v] == Unreached || v in queue') ==> v in left
    ensures forall v :: v in queue' ==> v in distances'
  {
    hide Bfs;
    distances', queue' := distances, queue;
    var currentDist := distances[current].hops;
    var todo := Out(g, current);
    while todo != {}
      invariant todo <= Out(g, current) && distances'.Keys == distances.Keys
      invariant Bfs(g, source, Reached(distances'), queue', todo, level)
      invariant distances'[current] == At(level) && current !in queue'
      invariant forall v :: v in distances' && (distances'[v] == Unreached || v in queue') ==> v in left
      invariant forall v :: v in queue' ==> v in distances'
    {
      var e :| e in todo;
      var to := g.edges[e].to;
      if distances'[to] == Unreached {
        BfsDiscover(g, source, Reached(distances'), queue', todo, level, e);
        assert Reached(distances'[to := At(level + 1)]) == Reached(distances')[to := level + 1];
        distances' := distances'[to := At(currentDist + 1)];
        queue' := queue' + [to];
      } else {
        BfsKnown(g, source, Reached(distances'), queue', todo, level, e);
      }
      todo := todo - {e};
    }
  }

  // --------------------------------------------------------------- shortest_path

  /** p lists the nodes of a walk from u to v with as few edges as possible. */
  ghost predicate ShortestNodePath(g: Graph, u: NodeId, v: NodeId, p: seq<NodeId>) {
    exists es :: IsWalk(g, u, es, v) && NodeSeq(g, u, es) == p && HopDistance(g, u, v, |es|)
  }

  /** Every visited node but the start was entered over an edge from a visited node one hop nearer. */
  ghost predicate Parented(g: Graph, s: NodeId, dist: map<NodeId, nat>, parent: map<NodeId, NodeId>, via: map<NodeId,
                           EdgeId>) {
    && s in dist && dist[s] == 0
    && parent.Keys == via.Keys == dist.Keys - {s}
    && forall v :: v in parent ==>
         && via[v] in g.edges && g.edges[via[v]].to == v && g.edges[via[v]].from == parent[v]
         && parent[v] in dist && dist[parent[v]] + 1 == dist[v]
  }

  method RestorePath(ghost g: Graph, ghost s: NodeId, ghost dist: map<NodeId, nat>, ghost via: map<NodeId, EdgeId>,
                     to: NodeId, parent: map<NodeId, NodeId>) returns (p: seq<NodeId>)
    requires Parented(g, s, dist, parent, via) && to in dist
    ensures exists es :: IsWalk(g, s, es, to) && NodeSeq(g, s, es) == p && |es| == dist[to]
  {
    var path, node := [to], to;
    ghost var es: seq<EdgeId> := [];
    assert Reversed([to]) == [to];
    while node in parent
      invariant node in dist && dist[node] + |es| == dist[to]
      invariant IsWalk(g, node, es, to) && NodeSeq(g, node, es) == Reversed(path)
      decreases dist[node]
    {
      var p := parent[node];
      NodeSeqHead(g, via[node], es, to);
      ReversedSnoc(path, p);
      es := [via[node]] + es;
      path := path + [p];
      node := p;
    }
    p := Reversed(path);
  }

  method ShortestPath(g: Graph, from: NodeId, to: NodeId) returns (r: Option<seq<NodeId>>)
    requires WellFormed(g)
    ensures r.None? <==> !Reach(g, from, to)
    ensures r.Some? ==> ShortestNodePath(g, from, to, r.value)
  {
    if from == to {
      assert IsWalk(g, from, [], to) && NodeSeq(g, from, []) == [from];
      return Some([from]);
    }
    var queue, visited, parent: map<NodeId, NodeId> := [from], {from}, map[];
    ghost var dist: map<NodeId, nat>, via: map<NodeId, EdgeId>, level := map[from := 0], map[], 0;
    ghost var left := g.nodes.Keys + {from};
    BfsStart(g, from);
    hide Bfs, ShortestNodePath, Reach, NoDup;
    while queue != []
      invariant Bfs(g, from, dist, queue, {}, level) && Parented(g, from, dist, parent, via)
      invariant visited == dist.Keys && to !in visited
      invariant forall v :: v in g.nodes.Keys + {from} && (v !in visited || v in queue) ==> v in left
      invariant forall v :: v in queue ==> v in g.nodes.Keys + {from}
      decreases left
    {
      BfsPop(g, from, dist, queue, level);
      var current := queue[0];
      level, left := dist[current], left - {current};
      var found;
      found, queue, visited, parent, dist, via :=
        VisitNeighbors(g, from, to, current, queue, visited, parent, dist, via, level, left);
      if found {
        FoundIsReached(g, from, to, dist, via, parent);
        var p := RestorePath(g, from, dist, via, to, parent);
        PathIsShortest(g, from, to, p, dist[to]);
        return Some(p);
      }
    }
    BfsDone(g, from, dist, level);
    return None;
  }

  lemma FoundIsReached(g: Graph, from: NodeId, to: NodeId, dist: map<NodeId, nat>, via: map<NodeId, EdgeId>,
                       parent: map<NodeId, NodeId>)
    requires to in dist && HopDistance(g, from, to, dist[to])
    ensures Reach(g, from, to)
  {
    var es :| IsWalk(g, from, es, to) && |es| == dist[to];
  }

  lemma PathIsShortest(g: Graph, from: NodeId, to: NodeId, p: seq<NodeId>, k: nat)
    requires HopDistance(g, from, to, k)
    requires exists es :: IsWalk(g, from, es, to) && NodeSeq(g, from, es) == p && |es| == k
    ensures ShortestNodePath(g, from, to, p)
  {
    hide HopDistance;
    var es :| IsWalk(g, from, es, to) && NodeSeq(g, from, es) == p && |es| == k;
  }

  /** Look at the edges out of the front node; stop as soon as the goal is discovered. */
  method VisitNeighbors(g: Graph, ghost from: NodeId, to: NodeId, current: NodeId, queue: seq<NodeId>,
                        visited: set<NodeId>,
                        parent: map<NodeId, NodeId>, ghost dist: map<NodeId, nat>, ghost via: map<NodeId, EdgeId>,
                        ghost level: nat, ghost left: set<NodeId>)
    returns (found: bool, queue': seq<NodeId>, visited': set<NodeId>, parent': map<NodeId, NodeId>,
             ghost dist': map<NodeId, nat>, ghost via': map<NodeId, EdgeId>)
    requires WellFormed(g) && queue != [] && current == queue[0] && current in dist && dist[current] == level
    requires Bfs(g, from, dist, queue, {}, level) && current !in queue[1..]
    requires Bfs(g, from, dist, queue[1..], Out(g, current), level)
    requires Parented(g, from, dist, parent, via) && visited == dist.Keys && to !in visited
    requires forall v :: v in g.nodes.Keys + {from} && (v !in visited || v in queue[1..]) ==> v in left
    requires forall v :: v in queue ==> v in g.nodes.Keys + {from}
    ensures Parented(g, from, dist', parent', via') && visited' == dist'.Keys
    ensures found ==> to in dist' && HopDistance(g, from, to, dist'[to])
    ensures !found ==>
      && to !in visited' && Bfs(g, from, dist', queue', {}, level)
      && (forall v :: v in g.nodes.Keys + {from} && (v !in visited' || v in queue') ==> v in left)
      && (forall v :: v in queue' ==> v in g.nodes.Keys + {from})
  {
    hide Bfs, NoDup, HopDistance;
    queue', visited', parent', dist', via' := queue[1..], visited, parent, dist, via;
    var todo := Out(g, current);
    while todo != {}
      invariant todo <= Out(g, current)
      invariant Bfs(g, from, dist', queue', todo, level) && Parented(g, from, dist', parent', via')
      invariant visited' == dist'.Keys && to !in visited'
      invariant current in dist' && dist'[current] == level && current !in queue'
      invariant forall v :: v in g.nodes.Keys + {from} && (v !in visited' || v in queue') ==> v in left
      invariant forall v :: v in queue' ==> v in g.nodes.Keys + {from}
    {
      var e :| e in todo;
      var neighbor := g.edges[e].to;
      if neighbor !in visited' {
        BfsDiscover(g, from, dist', queue', todo, level, e);
        visited' := visited' + {neighbor};
        parent' := parent'[neighbor := current];
        dist' := dist'[neighbor := level + 1];
        via' := via'[neighbor := e];
        if neighbor == to {
          NewTargetExact(g, from, dist, queue, level, to, e);
          return true, queue', visited', parent', dist', via';
        }
        queue' := queue' + [neighbor];
      } else {
        BfsKnown(g, from, dist', queue', todo, level, e);
      }
      todo := todo - {e};
    }
    found := false;
  }

  /** A goal unknown at the start of a turn and found over an edge of the front node is one hop past it. */
  lemma NewTargetExact(g: Graph, s: NodeId, dist: map<NodeId, nat>, queue: seq<NodeId>, level: nat, to: NodeId,
                       e: EdgeId)
    requires Bfs(g, s, dist, queue, {}, level) && to !in dist
    requires e in g.edges && g.edges[e].to == to && g.edges[e].from in dist && dist[g.edges[e].from] == level
    ensures HopDistance(g, s, to, level + 1)
  {
    assert HopWalk(g, s, level, g.edges[e].from);
    var pre :| IsWalk(g, s, pre, g.edges[e].from) && |pre| == level;
    WalkSnoc(g, s, pre, e);
    assert |pre + [e]| == level + 1;
    forall es | IsWalk(g, s, es, to) ensures level + 1 <= |es| {
      WalkBound(g, s, dist, queue, level, es, to);
    }
  }
}
