/**
  Dijkstra's algorithm over dense distance and predecessor vectors indexed by
  node id, with a binary heap that keeps stale entries and an early exit.
 */
module Dijkstra {
  import opened Collections
  import opened Multigraph
  import opened BestFirst

  /** A distance slot: `Inf` is the initial infinite distance. */
  datatype Dist = Inf | Fin(d: real)
  datatype Entry = Entry(node: NodeId, distance: real)

  function DistanceOf(x: Entry): real { x.distance }

  predicate Below(x: real, d: Dist) { d.Inf? || x < d.d }

  function Known(distances: seq<Dist>): map<NodeId, real> {
    map v: NodeId | v < |distances| && distances[v].Fin? :: distances[v].d
  }

  function LinksOf(previous: seq<Option<(NodeId, EdgeId)>>): Links {
    map v: NodeId | v < |previous| && previous[v].Some? :: previous[v].value
  }

  function NoEstimate(v: NodeId): real { 0.0 }

  // ------------------------------------------------------------------- the heap

  lemma LeastDistance(heap: multiset<Entry>, x: Entry)
    requires forall y :: y in heap ==> DistanceOf(x) <= DistanceOf(y)
    ensures forall y :: y in heap ==> x.distance <= y.distance
  {
  }

  /** Every unsettled known node has exactly one fresh entry; entries of settled nodes are stale. */
  ghost predicate HeapAgrees(dist: map<NodeId, real>, settled: seq<NodeId>, heap: multiset<Entry>, m: real) {
    && (forall x :: x in heap ==>
          && x.node in dist && dist[x.node] <= x.distance && m <= x.distance
          && (x.node in settled ==> dist[x.node] < x.distance))
    && (forall v :: v in dist && v !in settled ==> heap[Entry(v, dist[v])] == 1)
  }

  ghost predicate Searching(g: Graph, w: Weights, start: NodeId, dist: map<NodeId, real>, links: Links,
                            settled: seq<NodeId>, todo: set<EdgeId>, heap: multiset<Entry>, m: real) {
    && Frontier(g, w, NoEstimate, start, dist, links, settled, todo, m)
    && HeapAgrees(dist, settled, heap, m)
    && dist.Keys <= g.nodes.Keys + {start}
  }

  lemma SearchStart(g: Graph, w: Weights, start: NodeId)
    ensures Searching(g, w, start, map[start := 0.0], map[], [], {}, multiset{Entry(start, 0.0)}, 0.0)
  {
  }

  lemma NoEstimateConsistent(g: Graph, w: Weights)
    requires NonNegative(g, w)
    ensures Consistent(g, w, NoEstimate)
  {
  }

  /** The bound can be raised to the least heap entry. */
  lemma RaiseBound(g: Graph, w: Weights, start: NodeId, dist: map<NodeId, real>, links: Links,
                   settled: seq<NodeId>, heap: multiset<Entry>, m: real, x: Entry)
    requires Searching(g, w, start, dist, links, settled, {}, heap, m)
    requires x in heap && forall y :: y in heap ==> x.distance <= y.distance
    ensures Frontier(g, w, NoEstimate, start, dist, links, settled, {}, x.distance)
    ensures x.node in dist && (x.node !in settled ==> dist[x.node] == x.distance)
  {
    hide Tree, Relaxed;
    forall v | v in dist && v !in settled ensures x.distance <= dist[v] {
      assert Entry(v, dist[v]) in heap;
    }
  }

  lemma SkipStale(g: Graph, w: Weights, start: NodeId, dist: map<NodeId, real>, links: Links,
                  settled: seq<NodeId>, heap: multiset<Entry>, m: real, x: Entry)
    requires Searching(g, w, start, dist, links, settled, {}, heap, m)
    requires x in heap && x.node in dist && dist[x.node] < x.distance
    ensures Searching(g, w, start, dist, links, settled, {}, heap - multiset{x}, m)
  {
    hide Frontier;
  }

  lemma SettleFresh(g: Graph, w: Weights, start: NodeId, dist: map<NodeId, real>, links: Links,
                    settled: seq<NodeId>, heap: multiset<Entry>, m: real, x: Entry)
    requires Searching(g, w, start, dist, links, settled, {}, heap, m)
    requires x in heap && x.node in dist && x.distance <= dist[x.node]
    requires forall y :: y in heap ==> x.distance <= y.distance
    ensures x.node !in settled && dist[x.node] == x.distance
    ensures Searching(g, w, start, dist, links, settled + [x.node], Out(g, x.node), heap - multiset{x}, x.distance)
  {
    RaiseBound(g, w, start, dist, links, settled, heap, m, x);
    SettleNode(g, w, NoEstimate, start, dist, links, settled, x.distance, x.node, x.distance);
    hide Frontier;
    HeapSettle(dist, settled, heap, m, x);
    hide HeapAgrees;
  }

  lemma HeapSettle(dist: map<NodeId, real>, settled: seq<NodeId>, heap: multiset<Entry>, m: real, x: Entry)
    requires HeapAgrees(dist, settled, heap, m)
    requires x in heap && x.node in dist && x.node !in settled && x.distance == dist[x.node]
    requires forall y :: y in heap ==> x.distance <= y.distance
    ensures HeapAgrees(dist, settled + [x.node], heap - multiset{x}, x.distance)
  {
    assert x == Entry(x.node, dist[x.node]) && heap[x] == 1;
    assert forall v :: v in settled + [x.node] <==> v in settled || v == x.node;
    assert forall y :: y in heap - multiset{x} ==> y in heap && y != x;
  }

  lemma HeapPush(dist: map<NodeId, real>, settled: seq<NodeId>, heap: multiset<Entry>, m: real, to: NodeId, next: real)
    requires HeapAgrees(dist, settled, heap, m) && to !in settled && m <= next
    requires to in dist ==> next < dist[to]
    ensures HeapAgrees(dist[to := next], settled, heap + multiset{Entry(to, next)}, m)
  {
    assert Entry(to, next) !in heap;
  }

  /** One edge out of the node settled last: improve its target, or leave everything as it is. */
  lemma RelaxStep(g: Graph, w: Weights, start: NodeId, dist: map<NodeId, real>, links: Links, settled: seq<NodeId>,
                  todo: set<EdgeId>, heap: multiset<Entry>, m: real, e: EdgeId)
    requires WellFormed(g) && NonNegative(g, w) && Searching(g, w, start, dist, links, settled, todo, heap, m)
    requires e in todo && e in g.edges && g.edges[e].from in settled && g.edges[e].from in dist
    requires dist[g.edges[e].from] == m
    ensures var to, next := g.edges[e].to, m + w(g.edges[e]);
            if to !in dist || next < dist[to]
            then Searching(g, w, start, dist[to := next], links[to := (g.edges[e].from, e)], settled, todo - {e},
                           heap + multiset{Entry(to, next)}, m)
            else Searching(g, w, start, dist, links, settled, todo - {e}, heap, m)
  {
    hide Frontier, HeapAgrees;
    NoEstimateConsistent(g, w);
    var to, next := g.edges[e].to, m + w(g.edges[e]);
    if to !in dist || next < dist[to] {
      RelaxEdge(g, w, NoEstimate, start, dist, links, settled, todo, m, e);
      HeapPush(dist, settled, heap, m, to, next);
    } else {
      RelaxNoChange(g, w, NoEstimate, start, dist, links, settled, todo, m, e);
    }
  }

  // -------------------------------------------------------------------- find_path

  /** Relax every edge out of `node`, which has just been settled at `distance`. */
  method RelaxOutgoing(g: Graph, w: Weights, node: NodeId, distance: real, distances: seq<Dist>,
                       previous: seq<Option<(NodeId, EdgeId)>>, heap: multiset<Entry>,
                       ghost start: NodeId, ghost settled: seq<NodeId>)
    returns (distances': seq<Dist>, previous': seq<Option<(NodeId, EdgeId)>>, heap': multiset<Entry>)
    requires WellFormed(g) && NonNegative(g, w) && |distances| == |previous|
    requires forall v :: v in g.nodes ==> v < |distances|
    requires Searching(g, w, start, Known(distances), LinksOf(previous), settled, Out(g, node), heap, distance)
    requires node in settled && node in Known(distances) && Known(distances)[node] == distance
    ensures |distances'| == |previous'| == |distances|
    ensures Searching(g, w, start, Known(distances'), LinksOf(previous'), settled, {}, heap', distance)
  {
    hide Searching;
    distances', previous', heap' := distances, previous, heap;
    var todo := Out(g, node);
    while todo != {}
      invariant todo <= Out(g, node) && |distances'| == |previous'| == |distances|
      invariant Searching(g, w, start, Known(distances'), LinksOf(previous'), settled, todo, heap', distance)
      invariant node in Known(distances') && Known(distances')[node] == distance
    {
      var e :| e in todo;
      var neighbor, next := g.edges[e].to, distance + w(g.edges[e]);
      RelaxStep(g, w, start, Known(distances'), LinksOf(previous'), settled, todo, heap', distance, e);
      if Below(next, distances'[neighbor]) {
        assert Known(distances'[neighbor := Fin(next)]) == Known(distances')[neighbor := next];
        assert LinksOf(previous'[neighbor := Some((node, e))]) == LinksOf(previous')[neighbor := (node, e)];
        distances' := distances'[neighbor := Fin(next)];
        previous' := previous'[neighbor := Some((node, e))];
        heap' := heap' + multiset{Entry(neighbor, next)};
      }
      todo := todo - {e};
    }
  }

  lemma TargetPopped(g: Graph, w: Weights, start: NodeId, dist: map<NodeId, real>, links: Links,
                     settled: seq<NodeId>, heap: multiset<Entry>, m: real, x: Entry)
    requires NonNegative(g, w) && Searching(g, w, start, dist, links, settled, {}, heap, m)
    requires x in heap && x.node !in settled && forall y :: y in heap ==> x.distance <= y.distance
    ensures Tree(g, w, start, dist, links, settled) && x.node in dist && dist[x.node] == x.distance
    ensures LeastWeight(g, w, start, x.node, x.distance)
  {
    hide Linked, Relaxed, Separated, HeapAgrees, LeastWeight;
    NoEstimateConsistent(g, w);
    RaiseBound(g, w, start, dist, links, settled, heap, m, x);
    SettledIsLeast(g, w, NoEstimate, start, dist, links, settled, x.distance, x.node);
  }

  lemma HeapEmpty(g: Graph, w: Weights, start: NodeId, dist: map<NodeId, real>, links: Links,
                  settled: seq<NodeId>, m: real)
    requires Searching(g, w, start, dist, links, settled, {}, multiset{}, m)
    ensures forall v :: v in dist ==> v in settled
    ensures forall v :: Reach(g, start, v) <==> v in dist
  {
    hide Reach;
    assert forall v :: v in dist ==> v in settled by {
      hide Frontier;
    }
    hide Frontier;
    forall v ensures Reach(g, start, v) <==> v in dist {
      ExhaustedReach(g, w, NoEstimate, start, dist, links, settled, m, v);
    }
  }

  method FindPath(g: Graph, capacity: nat, w: Weights, from: NodeId, to: NodeId) returns (r: Option<WeightedPath>)
    requires WellFormed(g) && NonNegative(g, w)
    requires forall v :: v in g.nodes ==> v < capacity
    requires from == to || from < capacity
    ensures ShortestPathAnswer(g, w, from, to, r)
  {
    if from == to {
      TrivialPath(g, w, from);
      return Some(WeightedPath([from], [], 0.0));
    }
    hide *;
    var distances := seq(capacity, i => Inf);
    var previous: seq<Option<(NodeId, EdgeId)>> := seq(capacity, i => None);
    distances := distances[from := Fin(0.0)];
    var heap := multiset{Entry(from, 0.0)};
    ghost var settled: seq<NodeId>, m := [], 0.0;
    EmptyTables(capacity, from);
    SearchStart(g, w, from);
    ghost var unsettled := g.nodes.Keys + {from};
    while heap != multiset{}
      invariant |distances| == |previous| == capacity
      invariant Searching(g, w, from, Known(distances), LinksOf(previous), settled, {}, heap, m)
      invariant to !in settled && unsettled <= g.nodes.Keys + {from}
      invariant forall v :: v in g.nodes.Keys + {from} && v !in settled ==> v in unsettled
      decreases unsettled, |heap|
    {
      var x, rest := PopLeast(heap, DistanceOf);
      LeastDistance(heap, x);
      KnownEntry(g, w, from, distances, LinksOf(previous), settled, heap, m, x);
      if x.node == to {
        TargetPopped(g, w, from, Known(distances), LinksOf(previous), settled, heap, m, x);
        var p := ReconstructPath(g, w, Known(distances), settled, from, to, LinksOf(previous), x.distance);
        FoundAnswer(g, w, from, to, p);
        return Some(p);
      }
      if x.distance > distances[x.node].d {
        SkipStale(g, w, from, Known(distances), LinksOf(previous), settled, heap, m, x);
        heap := rest;
      } else {
        SettleFresh(g, w, from, Known(distances), LinksOf(previous), settled, heap, m, x);
        settled, m, unsettled := settled + [x.node], x.distance, unsettled - {x.node};
        distances, previous, heap := RelaxOutgoing(g, w, x.node, x.distance, distances, previous, rest, from, settled);
      }
    }
    NotFoundAnswer(g, w, from, Known(distances), LinksOf(previous), settled, m, to);
    return None;
  }

  lemma FoundAnswer(g: Graph, w: Weights, from: NodeId, to: NodeId, p: WeightedPath)
    requires IsPath(g, w, from, to, p) && LeastWeight(g, w, from, to, p.totalWeight)
    ensures ShortestPathAnswer(g, w, from, to, Some(p))
  {
    hide LeastWeight;
  }

  lemma NotFoundAnswer(g: Graph, w: Weights, start: NodeId, dist: map<NodeId, real>, links: Links,
                       settled: seq<NodeId>, m: real, to: NodeId)
    requires Searching(g, w, start, dist, links, settled, {}, multiset{}, m) && to !in settled
    ensures ShortestPathAnswer(g, w, start, to, None)
  {
    hide Searching, Reach;
    HeapEmpty(g, w, start, dist, links, settled, m);
  }

  lemma EmptyTables(capacity: nat, from: NodeId)
    requires from < capacity
    ensures Known(seq(capacity, i => Inf)[from := Fin(0.0)]) == map[from := 0.0]
    ensures LinksOf(seq(capacity, i => None)) == map[]
  {
  }

  lemma TrivialPath(g: Graph, w: Weights, v: NodeId)
    requires NonNegative(g, w)
    ensures ShortestPathAnswer(g, w, v, v, Some(WeightedPath([v], [], 0.0)))
  {
    assert IsWalk(g, v, [], v) && Weight(g, w, []) == 0.0;
    forall es | IsWalk(g, v, es, v) ensures (WalkEdgesExist(g, v, es, v); 0.0 <= Weight(g, w, es)) {
      WalkEdgesExist(g, v, es, v);
      WeightNonNegative(g, w, es);
    }
  }

  lemma {:induction false} WeightNonNegative(g: Graph, w: Weights, es: seq<EdgeId>)
    requires NonNegative(g, w) && forall e :: e in es ==> e in g.edges
    ensures Weight(g, w, es) >= 0.0
  {
    if es != [] {
      WeightNonNegative(g, w, es[..|es| - 1]);
    }
  }

  lemma KnownEntry(g: Graph, w: Weights, start: NodeId, distances: seq<Dist>, links: Links,
                   settled: seq<NodeId>, heap: multiset<Entry>, m: real, x: Entry)
    requires Searching(g, w, start, Known(distances), links, settled, {}, heap, m) && x in heap
    ensures x.node < |distances| && distances[x.node].Fin?
    ensures x.node in Known(distances) && Known(distances)[x.node] == distances[x.node].d
    ensures x.node in g.nodes.Keys + {start}
  {
    hide Frontier;
  }

  // --------------------------------------------------------------- distances_from

  /** The search of `distances_from`: no predecessor table, so the links are ghost. */
  method DistancesFrom(g: Graph, capacity: nat, w: Weights, from: NodeId) returns (r: map<NodeId, real>)
    requires WellFormed(g) && NonNegative(g, w)
    requires forall v :: v in g.nodes ==> v < capacity
    ensures forall v :: v in r <==> v in g.nodes && Reach(g, from, v)
    ensures forall v :: v in r ==> LeastWeight(g, w, from, v, r[v])
  {
    hide *;
    var distances := seq(capacity, i => Inf);
    if from < capacity {
      distances := distances[from := Fin(0.0)];
      EmptyTables(capacity, from);
    }
    var heap := multiset{Entry(from, 0.0)};
    ghost var links: Links, settled: seq<NodeId>, m := map[], [], 0.0;
    SearchStart(g, w, from);
    ghost var unsettled := g.nodes.Keys + {from};
    while heap != multiset{}
      invariant |distances| == capacity
      invariant from < capacity ==> Searching(g, w, from, Known(distances), links, settled, {}, heap, m)
      invariant from >= capacity ==> forall i :: 0 <= i < |distances| ==> distances[i] == Inf
      invariant from >= capacity ==> forall x :: x in heap ==> x.node >= capacity
      invariant forall v :: v in g.nodes.Keys + {from} && v !in settled ==> v in unsettled
      decreases unsettled, |heap|
    {
      var x, rest := PopLeast(heap, DistanceOf);
      LeastDistance(heap, x);
      if from < capacity {
        KnownEntry(g, w, from, distances, links, settled, heap, m, x);
      }
      if x.node >= capacity || (distances[x.node].Fin? && x.distance > distances[x.node].d) {
        if from < capacity {
          SkipStale(g, w, from, Known(distances), links, settled, heap, m, x);
        }
        heap := rest;
      } else {
        SettleFresh(g, w, from, Known(distances), links, settled, heap, m, x);
        settled, m, unsettled := settled + [x.node], x.distance, unsettled - {x.node};
        distances, heap, links := RelaxDistances(g, w, x.node, x.distance, distances, rest, from, links, settled);
      }
    }
    r := map v | v in g.nodes && distances[v].Fin? :: distances[v].d;
    if from < capacity {
      AllDistancesLeast(g, w, from, Known(distances), links, settled, m);
      KnownMeans(distances);
    } else {
      forall v | v in g.nodes ensures !Reach(g, from, v) {
        DeadStart(g, from, v);
      }
    }
  }

  lemma KnownMeans(distances: seq<Dist>)
    ensures forall v: nat :: v in Known(distances) <==> v < |distances| && distances[v].Fin?
    ensures forall v :: v in Known(distances) ==> Known(distances)[v] == distances[v].d
  {
  }

  lemma DeadStart(g: Graph, from: NodeId, v: NodeId)
    requires WellFormed(g) && from !in g.nodes && v in g.nodes
    ensures !Reach(g, from, v)
  {
    if Reach(g, from, v) {
      var es :| IsWalk(g, from, es, v);
      WalkHead(g, from, es, v);
      assert false;
    }
  }

  lemma AllDistancesLeast(g: Graph, w: Weights, start: NodeId, dist: map<NodeId, real>, links: Links,
                          settled: seq<NodeId>, m: real)
    requires NonNegative(g, w) && Searching(g, w, start, dist, links, settled, {}, multiset{}, m)
    ensures forall v :: Reach(g, start, v) <==> v in dist
    ensures forall v :: v in dist ==> LeastWeight(g, w, start, v, dist[v])
  {
    hide Tree, Relaxed, LeastWeight, Reach;
    HeapEmpty(g, w, start, dist, links, settled, m);
    NoEstimateConsistent(g, w);
    forall v | v in dist ensures LeastWeight(g, w, start, v, dist[v]) {
      SettledIsLeast(g, w, NoEstimate, start, dist, links, settled, m, v);
    }
  }

  method RelaxDistances(g: Graph, w: Weights, node: NodeId, distance: real, distances: seq<Dist>, heap: multiset<Entry>,
                        ghost start: NodeId, ghost links: Links, ghost settled: seq<NodeId>)
    returns (distances': seq<Dist>, heap': multiset<Entry>, ghost links': Links)
    requires WellFormed(g) && NonNegative(g, w)
    requires forall v :: v in g.nodes ==> v < |distances|
    requires Searching(g, w, start, Known(distances), links, settled, Out(g, node), heap, distance)
    requires node in settled && node in Known(distances) && Known(distances)[node] == distance
    ensures |distances'| == |distances|
    ensures Searching(g, w, start, Known(distances'), links', settled, {}, heap', distance)
  {
    hide Searching;
    distances', heap', links' := distances, heap, links;
    var todo := Out(g, node);
    while todo != {}
      invariant todo <= Out(g, node) && |distances'| == |distances|
      invariant Searching(g, w, start, Known(distances'), links', settled, todo, heap', distance)
      invariant node in Known(distances') && Known(distances')[node] == distance
    {
      var e :| e in todo;
      var neighbor, next := g.edges[e].to, distance + w(g.edges[e]);
      RelaxStep(g, w, start, Known(distances'), links', settled, todo, heap', distance, e);
      if neighbor < |distances'| && Below(next, distances'[neighbor]) {
        assert Known(distances'[neighbor := Fin(next)]) == Known(distances')[neighbor := next];
        distances' := distances'[neighbor := Fin(next)];
        links' := links'[neighbor := (node, e)];
        heap' := heap' + multiset{Entry(neighbor, next)};
      }
      todo := todo - {e};
    }
  }
}
