/** A* with a closed set that is never reopened. */
module AStar {
  import opened Collections
  import opened Multigraph
  import opened BestFirst
  import Dijkstra

  datatype Entry = Entry(node: NodeId, gScore: real, fScore: real)

  function FScore(x: Entry): real { x.fScore }

  /** Scores are consistent with the table, and every open node has its current score in the heap. */
  ghost predicate HeapAgrees(h: Heuristic, gScores: map<NodeId, real>, settled: seq<NodeId>, heap: multiset<Entry>,
                             m: real) {
    && (forall x :: x in heap ==>
          && x.node in gScores && gScores[x.node] <= x.gScore && x.fScore == x.gScore + h(x.node) && m <= x.fScore)
    && (forall v :: v in gScores && v !in settled ==> Entry(v, gScores[v], gScores[v] + h(v)) in heap)
  }

  ghost predicate Searching(g: Graph, w: Weights, h: Heuristic, start: NodeId, gScores: map<NodeId, real>, links: Links,
                            settled: seq<NodeId>, todo: set<EdgeId>, heap: multiset<Entry>, m: real) {
    && Frontier(g, w, h, start, gScores, links, settled, todo, m)
    && HeapAgrees(h, gScores, settled, heap, m)
    && gScores.Keys <= g.nodes.Keys + {start}
  }

  lemma SearchStart(g: Graph, w: Weights, h: Heuristic, start: NodeId)
    ensures Searching(g, w, h, start, map[start := 0.0], map[], [], {}, multiset{Entry(start, 0.0, h(start))}, h(start))
  {
  }

  /** The bound can be raised to the least f-score, and an open node is popped with its current g-score. */
  lemma RaiseBound(g: Graph, w: Weights, h: Heuristic, start: NodeId, gScores: map<NodeId, real>, links: Links,
                   settled: seq<NodeId>, heap: multiset<Entry>, m: real, x: Entry)
    requires Searching(g, w, h, start, gScores, links, settled, {}, heap, m)
    requires x in heap && forall y :: y in heap ==> x.fScore <= y.fScore
    ensures Frontier(g, w, h, start, gScores, links, settled, {}, x.fScore)
    ensures x.node in gScores && (x.node !in settled ==> gScores[x.node] == x.gScore)
    ensures x.fScore == x.gScore + h(x.node) && m <= x.fScore
    ensures forall v :: v in gScores && v !in settled ==> x.fScore <= gScores[v] + h(v)
    ensures x.node in g.nodes.Keys + {start}
  {
    hide Tree, Relaxed;
    forall v | v in gScores && v !in settled ensures x.fScore <= gScores[v] + h(v) {
      assert Entry(v, gScores[v], gScores[v] + h(v)) in heap;
    }
  }

  lemma SkipClosed(g: Graph, w: Weights, h: Heuristic, start: NodeId, gScores: map<NodeId, real>, links: Links,
                   settled: seq<NodeId>, heap: multiset<Entry>, m: real, x: Entry)
    requires Searching(g, w, h, start, gScores, links, settled, {}, heap, m) && x in heap && x.node in settled
    ensures Searching(g, w, h, start, gScores, links, settled, {}, heap - multiset{x}, m)
  {
    hide Frontier;
  }

  lemma CloseNode(g: Graph, w: Weights, h: Heuristic, start: NodeId, gScores: map<NodeId, real>, links: Links,
                  settled: seq<NodeId>, heap: multiset<Entry>, m: real, x: Entry)
    requires Searching(g, w, h, start, gScores, links, settled, {}, heap, m)
    requires x in heap && x.node !in settled && forall y :: y in heap ==> x.fScore <= y.fScore
    ensures x.node in gScores && gScores[x.node] == x.gScore && x.gScore + h(x.node) == x.fScore
    ensures Searching(g, w, h, start, gScores, links, settled + [x.node], Out(g, x.node), heap - multiset{x}, x.fScore)
  {
    RaiseBound(g, w, h, start, gScores, links, settled, heap, m, x);
    SettleNode(g, w, h, start, gScores, links, settled, x.fScore, x.node, x.fScore);
    hide Frontier;
    assert forall v :: v in settled + [x.node] <==> v in settled || v == x.node;
  }

  lemma HeapPush(h: Heuristic, gScores: map<NodeId, real>, settled: seq<NodeId>, heap: multiset<Entry>, m: real,
                 to: NodeId, tentative: real)
    requires HeapAgrees(h, gScores, settled, heap, m) && m <= tentative + h(to)
    requires to in gScores ==> tentative < gScores[to]
    ensures HeapAgrees(h, gScores[to := tentative], settled, heap + multiset{Entry(to, tentative, tentative + h(to))},
                       m)
  {
  }

  /** An edge out of the node closed last that improves an open neighbour. */
  lemma ImproveNeighbor(g: Graph, w: Weights, h: Heuristic, start: NodeId, gScores: map<NodeId, real>, links: Links,
                        settled: seq<NodeId>, todo: set<EdgeId>, heap: multiset<Entry>, m: real, e: EdgeId,
                        node: NodeId, to: NodeId, tentative: real)
    requires WellFormed(g) && NonNegative(g, w) && Consistent(g, w, h)
    requires Searching(g, w, h, start, gScores, links, settled, todo, heap, m)
    requires e in g.edges && g.edges[e].from == node && g.edges[e].to == to
    requires node in settled && node in gScores && gScores[node] + h(node) == m
    requires tentative == gScores[node] + w(g.edges[e])
    requires to !in gScores || tentative < gScores[to]
    ensures Searching(g, w, h, start, gScores[to := tentative], links[to := (node, e)], settled, todo - {e},
                      heap + multiset{Entry(to, tentative, tentative + h(to))}, m)
  {
    assert h(node) <= w(g.edges[e]) + h(to);
    hide Frontier, HeapAgrees, Consistent, NonNegative;
    RelaxEdge(g, w, h, start, gScores, links, settled, todo, m, e);
    HeapPush(h, gScores, settled, heap, m, to, tentative);
  }

  /** An edge out of the node closed last that leads to a closed node or does not improve. */
  lemma SkipNeighbor(g: Graph, w: Weights, h: Heuristic, start: NodeId, gScores: map<NodeId, real>, links: Links,
                     settled: seq<NodeId>, todo: set<EdgeId>, heap: multiset<Entry>, m: real, e: EdgeId)
    requires Consistent(g, w, h) && Searching(g, w, h, start, gScores, links, settled, todo, heap, m)
    requires e in g.edges && g.edges[e].from in gScores && gScores[g.edges[e].from] + h(g.edges[e].from) == m
    requires g.edges[e].to in settled ||
             (g.edges[e].to in gScores && gScores[g.edges[e].to] <= gScores[g.edges[e].from] + w(g.edges[e]))
    ensures Searching(g, w, h, start, gScores, links, settled, todo - {e}, heap, m)
  {
    hide Frontier, HeapAgrees, Consistent;
    if g.edges[e].to in settled {
      SettledTarget(g, w, h, start, gScores, links, settled, todo, m, e);
    }
    RelaxNoChange(g, w, h, start, gScores, links, settled, todo, m, e);
  }

  method ExpandNode(g: Graph, w: Weights, h: Heuristic, x: Entry, gScores: map<NodeId, real>, links: Links,
                    heap: multiset<Entry>, closed: set<NodeId>, ghost start: NodeId, ghost settled: seq<NodeId>)
    returns (gScores': map<NodeId, real>, links': Links, heap': multiset<Entry>)
    requires WellFormed(g) && NonNegative(g, w) && Consistent(g, w, h)
    requires Searching(g, w, h, start, gScores, links, settled, Out(g, x.node), heap, x.fScore)
    requires closed == Elems(settled) && x.node in settled && x.node in gScores && gScores[x.node] == x.gScore
    requires x.gScore + h(x.node) == x.fScore
    ensures Searching(g, w, h, start, gScores', links', settled, {}, heap', x.fScore)
  {
    hide Searching;
    gScores', links', heap' := gScores, links, heap;
    var todo := Out(g, x.node);
    while todo != {}
      invariant todo <= Out(g, x.node)
      invariant Searching(g, w, h, start, gScores', links', settled, todo, heap', x.fScore)
      invariant x.node in gScores' && gScores'[x.node] == x.gScore
    {
      var e :| e in todo;
      var neighbor := g.edges[e].to;
      if neighbor in closed {
        SkipNeighbor(g, w, h, start, gScores', links', settled, todo, heap', x.fScore, e);
        todo := todo - {e};
        continue;
      }
      var tentative := x.gScore + w(g.edges[e]);
      if neighbor !in gScores' || tentative < gScores'[neighbor] {
        ImproveNeighbor(g, w, h, start, gScores', links', settled, todo, heap', x.fScore, e, x.node, neighbor,
                        tentative);
        gScores' := gScores'[neighbor := tentative];
        links' := links'[neighbor := (x.node, e)];
        heap' := heap' + multiset{Entry(neighbor, tentative, tentative + h(neighbor))};
      } else {
        SkipNeighbor(g, w, h, start, gScores', links', settled, todo, heap', x.fScore, e);
      }
      todo := todo - {e};
    }
  }

  lemma TargetPopped(g: Graph, w: Weights, h: Heuristic, start: NodeId, gScores: map<NodeId, real>, links: Links,
                     settled: seq<NodeId>, heap: multiset<Entry>, m: real, x: Entry)
    requires Consistent(g, w, h) && Searching(g, w, h, start, gScores, links, settled, {}, heap, m)
    requires x in heap && x.node !in settled && forall y :: y in heap ==> x.fScore <= y.fScore
    ensures Tree(g, w, start, gScores, links, settled) && x.node in gScores && gScores[x.node] == x.gScore
    ensures LeastWeight(g, w, start, x.node, x.gScore)
  {
    hide Linked, Relaxed, Separated, HeapAgrees, LeastWeight, Consistent;
    RaiseBound(g, w, h, start, gScores, links, settled, heap, m, x);
    SettledIsLeast(g, w, h, start, gScores, links, settled, x.fScore, x.node);
  }

  lemma NotFound(g: Graph, w: Weights, h: Heuristic, start: NodeId, gScores: map<NodeId, real>, links: Links,
                 settled: seq<NodeId>, m: real, to: NodeId)
    requires Searching(g, w, h, start, gScores, links, settled, {}, multiset{}, m) && to !in settled
    ensures ShortestPathAnswer(g, w, start, to, None)
  {
    hide Frontier, Reach;
    ExhaustedReach(g, w, h, start, gScores, links, settled, m, to);
  }

  /** The heuristic as an estimate towards one goal. */
  function Towards(heuristic: (NodeId, NodeId) -> real, goal: NodeId): Heuristic {
    (v: NodeId) => heuristic(v, goal)
  }

  /** With a heuristic that is consistent towards the goal, A* answers exactly what Dijkstra answers. */
  method FindPath(g: Graph, w: Weights, heuristic: (NodeId, NodeId) -> real, from: NodeId, to: NodeId)
    returns (r: Option<WeightedPath>)
    requires WellFormed(g) && NonNegative(g, w) && Consistent(g, w, Towards(heuristic, to))
    ensures ShortestPathAnswer(g, w, from, to, r)
  {
    if from == to {
      Dijkstra.TrivialPath(g, w, from);
      return Some(WeightedPath([from], [], 0.0));
    }
    hide *;
    var h := Towards(heuristic, to);
    var gScores: map<NodeId, real>, links: Links := map[from := 0.0], map[];
    var heap := multiset{Entry(from, 0.0, h(from))};
    var closed: set<NodeId> := {};
    ghost var settled: seq<NodeId>, m, open := [], h(from), g.nodes.Keys + {from};
    SearchStart(g, w, h, from);
    NothingClosed();
    while heap != multiset{}
      invariant Searching(g, w, h, from, gScores, links, settled, {}, heap, m)
      invariant to !in closed && closed == Elems(settled) && g.nodes.Keys + {from} <= open + closed
      decreases open, |heap|
    {
      var x, rest := PopLeast(heap, FScore);
      RaiseBound(g, w, h, from, gScores, links, settled, heap, m, x);
      ClosedIsSettled(settled, x.node);
      if x.node == to {
        TargetPopped(g, w, h, from, gScores, links, settled, heap, m, x);
        var p := ReconstructPath(g, w, gScores, settled, from, to, links, x.gScore);
        Dijkstra.FoundAnswer(g, w, from, to, p);
        return Some(p);
      }
      if x.node in closed {
        SkipClosed(g, w, h, from, gScores, links, settled, heap, m, x);
        heap := rest;
        continue;
      }
      CloseNode(g, w, h, from, gScores, links, settled, heap, m, x);
      CloseSettles(settled, x.node);
      closed, settled, m, open := closed + {x.node}, settled + [x.node], x.fScore, open - {x.node};
      gScores, links, heap := ExpandNode(g, w, h, x, gScores, links, rest, closed, from, settled);
    }
    ClosedIsSettled(settled, to);
    NotFound(g, w, h, from, gScores, links, settled, m, to);
    return None;
  }

  lemma NothingClosed()
    ensures Elems<NodeId>([]) == {}
  {
  }

  lemma ClosedIsSettled(settled: seq<NodeId>, v: NodeId)
    ensures v in Elems(settled) <==> v in settled
  {
  }

  lemma CloseSettles(settled: seq<NodeId>, v: NodeId)
    ensures Elems(settled + [v]) == Elems(settled) + {v} && v in settled + [v]
  {
  }
}
