/** Every shortest path between two nodes: a layered search, then recursive reconstruction. */
module AllShortestPaths {
  import opened Collections
  import opened Multigraph
  import opened Hops
  import opened ShortestWalks

  /** paths lists the node sequences of exactly the shortest walks, one entry per walk. */
  ghost predicate ListsShortestWalks(g: Graph, from: NodeId, to: NodeId, walks: seq<seq<EdgeId>>,
                                     paths: seq<seq<NodeId>>) {
    && |walks| == |paths| && NoDup(walks)
    && (forall es :: es in walks <==> IsWalk(g, from, es, to) && HopDistance(g, from, to, |es|))
    && (forall i :: 0 <= i < |walks| ==> paths[i] == NodeSeq(g, from, walks[i]))
  }

  // ------------------------------------------------------------------ the search

  /** What the search knows at any time; `ahead` is the part of the queue that will still be expanded. */
  ghost predicate Layering(g: Graph, from: NodeId, to: NodeId, dist: map<NodeId, nat>, ahead: seq<NodeId>,
                           todo: set<EdgeId>,
                           level: nat, preds: map<NodeId, seq<NodeId>>, entered: map<NodeId, seq<EdgeId>>) {
    && Bfs(g, from, dist, ahead, todo, level)
    && PredsAgree(g, dist, ahead, todo, preds, entered)
    && preds.Keys == dist.Keys - {from}
  }

  /** The target distance is recorded as soon as the target is. */
  ghost predicate TargetKnown(to: NodeId, dist: map<NodeId, nat>, target: Option<nat>) {
    target == if to in dist then Some(dist[to]) else None
  }

  lemma LayerParts(g: Graph, from: NodeId, to: NodeId, dist: map<NodeId, nat>, ahead: seq<NodeId>, todo: set<EdgeId>,
                   level: nat, preds: map<NodeId, seq<NodeId>>, entered: map<NodeId, seq<EdgeId>>)
    requires Layering(g, from, to, dist, ahead, todo, level, preds, entered)
    ensures Bfs(g, from, dist, ahead, todo, level) && PredsAgree(g, dist, ahead, todo, preds, entered)
    ensures preds.Keys == entered.Keys == dist.Keys - {from} && from in dist && dist[from] == 0
    ensures dist.Keys <= g.nodes.Keys + {from}
  {
    hide Wavefront, Scanned;
  }

  lemma LayerFromParts(g: Graph, from: NodeId, to: NodeId, dist: map<NodeId, nat>, ahead: seq<NodeId>,
                       todo: set<EdgeId>,
                       level: nat, preds: map<NodeId, seq<NodeId>>, entered: map<NodeId, seq<EdgeId>>)
    requires Bfs(g, from, dist, ahead, todo, level) && PredsAgree(g, dist, ahead, todo, preds, entered)
    requires preds.Keys == dist.Keys - {from}
    ensures Layering(g, from, to, dist, ahead, todo, level, preds, entered)
  {
    hide Bfs, PredsAgree;
  }

  lemma LayerPop(g: Graph, from: NodeId, to: NodeId, dist: map<NodeId, nat>, queue: seq<NodeId>, level: nat,
                 preds: map<NodeId, seq<NodeId>>, entered: map<NodeId, seq<EdgeId>>)
    requires Layering(g, from, to, dist, queue, {}, level, preds, entered) && queue != []
    ensures queue[0] in dist && queue[0] !in queue[1..]
    ensures forall x :: x in queue ==> x in dist && dist[queue[0]] <= dist[x]
    ensures Layering(g, from, to, dist, queue[1..], Out(g, queue[0]), dist[queue[0]], preds, entered)
  {
    hide *;
    LayerParts(g, from, to, dist, queue, {}, level, preds, entered);
    BfsPop(g, from, dist, queue, level);
    FrontIsLeast(g, from, dist, queue, level);
    PredsPop(g, dist, queue, queue[1..], Out(g, queue[0]), preds, entered);
    LayerFromParts(g, from, to, dist, queue[1..], Out(g, queue[0]), dist[queue[0]], preds, entered);
  }

  /** A newly discovered neighbour starts a predecessor list. */
  lemma LayerDiscover(g: Graph, from: NodeId, to: NodeId, dist: map<NodeId, nat>, queue: seq<NodeId>, todo: set<EdgeId>,
                      level: nat, preds: map<NodeId, seq<NodeId>>, entered: map<NodeId, seq<EdgeId>>,
                      e: EdgeId, current: NodeId, neighbor: NodeId)
    requires WellFormed(g) && Layering(g, from, to, dist, queue, todo, level, preds, entered)
    requires e in todo && e in g.edges && g.edges[e].from == current && g.edges[e].to == neighbor
    requires current in dist && dist[current] == level && current !in queue && neighbor !in dist
    ensures Layering(g, from, to, dist[neighbor := level + 1], queue + [neighbor], todo - {e}, level,
                     preds[neighbor := [current]], entered[neighbor := [e]])
  {
    hide *;
    LayerParts(g, from, to, dist, queue, todo, level, preds, entered);
    DiscoverOneMore(g, from, dist, queue, todo, level, e);
    var preds', entered' := preds[neighbor := []], entered[neighbor := []];
    EmptyList(g, dist, queue, todo, preds, entered, neighbor);
    PredsAppend(g, dist, queue, todo, dist[neighbor := level + 1], queue + [neighbor], todo - {e}, e, preds', entered');
    assert [] + [current] == [current] && [] + [e] == [e];
    assert preds[neighbor := [current]] == preds'[neighbor := preds'[neighbor] + [current]];
    assert entered[neighbor := [e]] == entered'[neighbor := entered'[neighbor] + [e]];
    LayerFromParts(g, from, to, dist[neighbor := level + 1], queue + [neighbor], todo - {e}, level,
                   preds[neighbor := [current]], entered[neighbor := [e]]);
  }

  lemma EmptyList(g: Graph, dist: map<NodeId, nat>, queue: seq<NodeId>, todo: set<EdgeId>,
                  preds: map<NodeId, seq<NodeId>>, entered: map<NodeId, seq<EdgeId>>, v: NodeId)
    requires PredsAgree(g, dist, queue, todo, preds, entered) && v !in dist
    ensures PredsAgree(g, dist, queue, todo, preds[v := []], entered[v := []])
  {
    hide Seen;
    assert PredsOf(g, dist, queue, todo, v, [], []);
    hide PredsOf;
  }

  lemma LayerAppend(g: Graph, from: NodeId, to: NodeId, dist: map<NodeId, nat>, queue: seq<NodeId>, todo: set<EdgeId>,
                    level: nat, preds: map<NodeId, seq<NodeId>>, entered: map<NodeId, seq<EdgeId>>,
                    e: EdgeId, current: NodeId, neighbor: NodeId)
    requires Layering(g, from, to, dist, queue, todo, level, preds, entered)
    requires e in todo && e in g.edges && g.edges[e].from == current && g.edges[e].to == neighbor
    requires current in dist && dist[current] == level && current !in queue
    requires neighbor in dist && dist[neighbor] == level + 1
    ensures neighbor in preds && neighbor in entered
    ensures Layering(g, from, to, dist, queue, todo - {e}, level,
                     preds[neighbor := preds[neighbor] + [current]], entered[neighbor := entered[neighbor] + [e]])
  {
    hide *;
    LayerParts(g, from, to, dist, queue, todo, level, preds, entered);
    assert neighbor in dist.Keys - {from};
    KnownOneMore(g, from, dist, queue, todo, level, e);
    PredsAppend(g, dist, queue, todo, dist, queue, todo - {e}, e, preds, entered);
    LayerFromParts(g, from, to, dist, queue, todo - {e}, level,
                   preds[neighbor := preds[neighbor] + [current]], entered[neighbor := entered[neighbor] + [e]]);
  }

  lemma LayerSkip(g: Graph, from: NodeId, to: NodeId, dist: map<NodeId, nat>, queue: seq<NodeId>, todo: set<EdgeId>,
                  level: nat, preds: map<NodeId, seq<NodeId>>, entered: map<NodeId, seq<EdgeId>>, e: EdgeId)
    requires Layering(g, from, to, dist, queue, todo, level, preds, entered)
    requires e in todo && e in g.edges && g.edges[e].from in dist && dist[g.edges[e].from] == level
    requires g.edges[e].from !in queue
    requires g.edges[e].to in dist && dist[g.edges[e].to] != level + 1
    ensures Layering(g, from, to, dist, queue, todo - {e}, level, preds, entered)
  {
    hide *;
    LayerParts(g, from, to, dist, queue, todo, level, preds, entered);
    KnownOneMore(g, from, dist, queue, todo, level, e);
    PredsSame(g, dist, queue, todo, dist, queue, todo - {e}, e, preds, entered);
    LayerFromParts(g, from, to, dist, queue, todo - {e}, level, preds, entered);
  }

  /** Expand one node. */
  method ExpandLayer(g: Graph, ghost from: NodeId, to: NodeId, current: NodeId, distances: map<NodeId, nat>,
                     queue: seq<NodeId>,
                     preds: map<NodeId, seq<NodeId>>, target: Option<nat>,
                     ghost entered: map<NodeId, seq<EdgeId>>, ghost left: set<NodeId>)
    returns (distances': map<NodeId, nat>, queue': seq<NodeId>, preds': map<NodeId, seq<NodeId>>, target': Option<nat>,
             ghost entered': map<NodeId, seq<EdgeId>>)
    requires WellFormed(g) && current in distances && current !in queue && to != from
    requires Layering(g, from, to, distances, queue, Out(g, current), distances[current], preds, entered)
    requires TargetKnown(to, distances, target)
    requires forall v :: v in g.nodes.Keys + {from} && (v !in distances || v in queue) ==> v in left
    ensures Layering(g, from, to, distances', queue', {}, distances[current], preds', entered')
    ensures TargetKnown(to, distances', target')
    ensures forall v :: v in g.nodes.Keys + {from} && (v !in distances' || v in queue') ==> v in left
  {
    hide Layering, Out;
    distances', queue', preds', target', entered' := distances, queue, preds, target, entered;
    var currentDist := distances[current];
    var todo := Out(g, current);
    while todo != {}
      invariant todo <= Out(g, current)
      invariant current in distances' && distances'[current] == currentDist && current !in queue'
      invariant Layering(g, from, to, distances', queue', todo, currentDist, preds', entered')
      invariant TargetKnown(to, distances', target')
      invariant forall v :: v in g.nodes.Keys + {from} && (v !in distances' || v in queue') ==> v in left
    {
      var e :| e in todo;
      OutEdge(g, current, e);
      var neighbor, newDist := g.edges[e].to, currentDist + 1;
      if neighbor !in distances' {
        LayerDiscover(g, from, to, distances', queue', todo, currentDist, preds', entered', e, current, neighbor);
        distances' := distances'[neighbor := newDist];
        preds' := preds'[neighbor := [current]];
        entered' := entered'[neighbor := [e]];
        queue' := queue' + [neighbor];
        if neighbor == to {
          target' := Some(newDist);
        }
      } else if distances'[neighbor] == newDist {
        LayerAppend(g, from, to, distances', queue', todo, currentDist, preds', entered', e, current, neighbor);
        preds' := preds'[neighbor := preds'[neighbor] + [current]];
        entered' := entered'[neighbor := entered'[neighbor] + [e]];
      } else {
        LayerSkip(g, from, to, distances', queue', todo, currentDist, preds', entered', e);
      }
      todo := todo - {e};
    }
  }

  /** The search is over: nothing closer than the target is left to expand. */
  ghost predicate Searched(g: Graph, from: NodeId, to: NodeId, dist: map<NodeId, nat>,
                           preds: map<NodeId, seq<NodeId>>, entered: map<NodeId, seq<EdgeId>>) {
    && from in dist && dist[from] == 0
    && (forall v :: v in dist ==> HopDistance(g, from, v, dist[v]))
    && (to in dist <==> Reach(g, from, to))
    && preds.Keys == entered.Keys == dist.Keys - {from}
    && (forall v :: v in preds && to in dist && dist[v] <= dist[to] ==>
          LevelList(g, from, dist, v, preds[v], entered[v]))
  }

  /** The list of v names, once each, all edges whose source is one hop nearer. */
  ghost predicate LevelList(g: Graph, from: NodeId, dist: map<NodeId, nat>, v: NodeId, preds: seq<NodeId>,
                            entered: seq<EdgeId>)
    requires v in dist
  {
    && |preds| == |entered| && NoDup(entered) && dist[v] > 0
    && (forall i :: 0 <= i < |entered| ==>
          && entered[i] in g.edges && g.edges[entered[i]].from == preds[i] && g.edges[entered[i]].to == v
          && preds[i] in dist && dist[preds[i]] + 1 == dist[v])
    && (forall e :: e in In(g, v) && HopWalk(g, from, dist[v] - 1, g.edges[e].from) ==> e in entered)
  }

  lemma ListComplete(g: Graph, from: NodeId, dist: map<NodeId, nat>, ahead: seq<NodeId>, level: nat,
                     v: NodeId, preds: seq<NodeId>, entered: seq<EdgeId>)
    requires Bfs(g, from, dist, ahead, {}, level) && PredsOf(g, dist, ahead, {}, v, preds, entered)
    requires v in dist && v != from && forall x :: x in ahead && x in dist ==> dist[v] <= dist[x]
    ensures LevelList(g, from, dist, v, preds, entered)
  {
    assert HopWalk(g, from, dist[v], v);
    var w :| IsWalk(g, from, w, v) && |w| == dist[v];
    assert dist[v] > 0;
    forall i | 0 <= i < |entered|
      ensures entered[i] in g.edges && g.edges[entered[i]].from == preds[i] && g.edges[entered[i]].to == v
      ensures preds[i] in dist && dist[preds[i]] + 1 == dist[v]
    {
      assert entered[i] in entered;
    }
    forall e | e in In(g, v) && HopWalk(g, from, dist[v] - 1, g.edges[e].from) ensures e in entered {
      UpperEdgeSeen(g, from, dist, ahead, level, v, e);
    }
  }

  lemma UpperEdgeSeen(g: Graph, from: NodeId, dist: map<NodeId, nat>, ahead: seq<NodeId>, level: nat, v: NodeId,
                      e: EdgeId)
    requires Bfs(g, from, dist, ahead, {}, level) && v in dist && dist[v] > 0
    requires forall x :: x in ahead && x in dist ==> dist[v] <= dist[x]
    requires e in In(g, v) && HopWalk(g, from, dist[v] - 1, g.edges[e].from)
    ensures Seen(g, dist, ahead, {}, e) && dist[g.edges[e].from] + 1 == dist[v]
  {
    var u := g.edges[e].from;
    var es :| IsWalk(g, from, es, u) && |es| == dist[v] - 1;
    WalkBound(g, from, dist, ahead, level, es, u);
    assert u in dist && dist[u] <= dist[v] - 1;
    hide HopWalk;
    assert Seen(g, dist, ahead, {}, e);
    BfsExact(g, from, dist, ahead, level, v);
    LongerBy(g, from, dist, v, e);
  }

  lemma LongerBy(g: Graph, from: NodeId, dist: map<NodeId, nat>, v: NodeId, e: EdgeId)
    requires e in In(g, v) && v in dist && HopDistance(g, from, v, dist[v])
    requires g.edges[e].from in dist && HopWalk(g, from, dist[g.edges[e].from], g.edges[e].from)
    ensures dist[v] <= dist[g.edges[e].from] + 1
  {
    var u := g.edges[e].from;
    var es :| IsWalk(g, from, es, u) && |es| == dist[u];
    WalkSnoc(g, from, es, e);
    assert dist[v] <= |es + [e]|;
  }

  lemma SearchEnds(g: Graph, from: NodeId, to: NodeId, dist: map<NodeId, nat>, ahead: seq<NodeId>, level: nat,
                   preds: map<NodeId, seq<NodeId>>, entered: map<NodeId, seq<EdgeId>>)
    requires Layering(g, from, to, dist, ahead, {}, level, preds, entered)
    requires to !in dist ==> ahead == []
    requires forall x :: x in ahead && x in dist && to in dist ==> dist[to] <= dist[x]
    ensures Searched(g, from, to, dist, preds, entered)
  {
    hide HopDistance, Reach, LevelList, PredsOf, Bfs;
    LayerParts(g, from, to, dist, ahead, {}, level, preds, entered);
    forall v | v in dist ensures HopDistance(g, from, v, dist[v]) {
      BfsExact(g, from, dist, ahead, level, v);
    }
    if to in dist {
      KnownIsReached(g, from, to, dist[to]);
    } else {
      BfsDone(g, from, dist, level);
    }
    forall v | v in preds && to in dist && dist[v] <= dist[to]
      ensures LevelList(g, from, dist, v, preds[v], entered[v])
    {
      ListComplete(g, from, dist, ahead, level, v, preds[v], entered[v]);
    }
  }

  lemma KnownIsReached(g: Graph, from: NodeId, v: NodeId, k: nat)
    requires HopDistance(g, from, v, k)
    ensures Reach(g, from, v)
  {
    var es :| IsWalk(g, from, es, v) && |es| == k;
  }

  lemma LayerStart(g: Graph, from: NodeId, to: NodeId)
    ensures Layering(g, from, to, map[from := 0], [from], {}, 0, map[], map[])
  {
    BfsStart(g, from);
  }

  method Search(g: Graph, from: NodeId, to: NodeId)
    returns (distances: map<NodeId, nat>, preds: map<NodeId, seq<NodeId>>, ghost entered: map<NodeId, seq<EdgeId>>)
    requires WellFormed(g) && from != to
    ensures Searched(g, from, to, distances, preds, entered)
  {
    hide Layering, Searched, Out;
    var queue := [from];
    distances, preds, entered := map[from := 0], map[], map[];
    var target: Option<nat> := None;
    LayerStart(g, from, to);
    ghost var level: nat, ahead, left := 0, queue, g.nodes.Keys + {from};
    while queue != []
      invariant Layering(g, from, to, distances, ahead, {}, level, preds, entered)
      invariant TargetKnown(to, distances, target)
      invariant queue ==
        ahead || (target.Some? && forall x :: x in ahead ==> x in distances && target.value <= distances[x])
      invariant forall x :: x in queue ==> x in distances
      invariant queue == ahead || |queue| < |ahead|
      invariant queue != ahead ==> forall x :: x in queue ==> target.value <= distances[x]
      invariant queue == ahead ==> forall v :: v in g.nodes.Keys + {from} && (v !in distances || v in queue) ==>
        v in left
      decreases queue == ahead, left, |queue|
    {
      var current := queue[0];
      var currentDist := distances[current];
      ghost var live := queue == ahead;
      if queue == ahead {
        LayerPop(g, from, to, distances, queue, level, preds, entered);
        LayerParts(g, from, to, distances, queue, {}, level, preds, entered);
      }
      queue := queue[1..];
      if target.Some? && currentDist >= target.value {
        continue;
      }
      assert live && current in distances.Keys && current in left;
      level, left := currentDist, left - {current};
      distances, queue, preds, target, entered :=
        ExpandLayer(g, from, to, current, distances, queue, preds, target, entered, left);
      ahead := queue;
      QueueKnown(g, from, to, distances, ahead, level, preds, entered);
    }
    SearchEnds(g, from, to, distances, ahead, level, preds, entered);
  }

  lemma QueueKnown(g: Graph, from: NodeId, to: NodeId, dist: map<NodeId, nat>, queue: seq<NodeId>, level: nat,
                   preds: map<NodeId, seq<NodeId>>, entered: map<NodeId, seq<EdgeId>>)
    requires Layering(g, from, to, dist, queue, {}, level, preds, entered)
    ensures forall x :: x in queue ==> x in dist
  {
    hide Rooted, Scanned, PredsAgree;
  }

  // -------------------------------------------------------------- reconstruction

  /** All walks of dist[v] edges to v arrive over the listed edges. */
  lemma ListCoversWalks(g: Graph, from: NodeId, dist: map<NodeId, nat>, v: NodeId, preds: seq<NodeId>,
                        entered: seq<EdgeId>)
    requires v in dist && LevelList(g, from, dist, v, preds, entered)
    ensures Elems(entered) <= g.edges.Keys
    ensures Walks(g, from, dist[v], v) == ViaLast(g, from, dist[v] - 1, Elems(entered))
  {
    var k := dist[v] - 1;
    forall e | e in entered ensures e in In(g, v) {
    }
    forall e | e in In(g, v) && Walks(g, from, k, g.edges[e].from) != {} ensures e in entered {
      var es :| es in Walks(g, from, k, g.edges[e].from);
      WalksExactly(g, from, k, g.edges[e].from, es);
      assert HopWalk(g, from, k, g.edges[e].from);
    }
    hide LevelList, HopWalk;
    assert Walks(g, from, k + 1, v) == ViaLast(g, from, k, Elems(entered));
  }

  ghost function AppendAll(ws: seq<seq<EdgeId>>, e: EdgeId): (r: seq<seq<EdgeId>>)
    ensures |r| == |ws|
    ensures forall i :: 0 <= i < |ws| ==> r[i] == ws[i] + [e]
  {
    seq(|ws|, i requires 0 <= i < |ws| => ws[i] + [e])
  }

  lemma AppendAllNoDup(ws: seq<seq<EdgeId>>, e: EdgeId)
    requires NoDup(ws)
    ensures NoDup(AppendAll(ws, e))
  {
    var r := AppendAll(ws, e);
    forall i, j | 0 <= i < j < |r| ensures r[i] != r[j] {
      assert r[i][..|ws[i]|] == ws[i] && r[j][..|ws[j]|] == ws[j];
    }
  }

  /** Adding the walks over one more listed edge. */
  lemma OneMoreList(g: Graph, from: NodeId, k: nat, ws: seq<seq<EdgeId>>, last: seq<EdgeId>, e: EdgeId,
                    more: seq<seq<EdgeId>>)
    requires Elems(last) <= g.edges.Keys && e in g.edges && e !in last
    requires NoDup(ws) && Elems(ws) == ViaLast(g, from, k, Elems(last))
    requires NoDup(more) && Elems(more) == Walks(g, from, k, g.edges[e].from)
    ensures Elems(last + [e]) <= g.edges.Keys
    ensures NoDup(ws + AppendAll(more, e))
    ensures Elems(ws + AppendAll(more, e)) == ViaLast(g, from, k, Elems(last + [e]))
  {
    hide Walks;
    AppendAllNoDup(more, e);
    var extra := AppendAll(more, e);
    assert Elems(last + [e]) == Elems(last) + {e};
    forall x | x in ws ensures x !in extra {
      assert x in Elems(ws);
      assert x[|x| - 1] in last;
    }
    NoDupConcat(ws, extra);
    ViaLastSplits(g, from, k, Elems(last), e, more);
    forall x ensures x in Elems(ws + extra) <==> x in ViaLast(g, from, k, Elems(last) + {e}) {
      assert x in Elems(ws + extra) <==> x in Elems(ws) || x in extra;
    }
  }

  lemma ViaLastSplits(g: Graph, from: NodeId, k: nat, last: set<EdgeId>, e: EdgeId, more: seq<seq<EdgeId>>)
    requires last <= g.edges.Keys && e in g.edges
    requires Elems(more) == Walks(g, from, k, g.edges[e].from)
    ensures forall x :: x in ViaLast(g, from, k, last + {e}) <==>
      x in ViaLast(g, from, k, last) || x in AppendAll(more, e)
  {
    hide Walks;
    var extra := AppendAll(more, e);
    forall x ensures x in ViaLast(g, from, k, last + {e}) <==> x in ViaLast(g, from, k, last) || x in extra {
      if x in ViaLast(g, from, k, last + {e}) && x !in ViaLast(g, from, k, last) {
        var e', es :| e' in last + {e} && es in Walks(g, from, k, g.edges[e'].from) && x == es + [e'];
        assert es in Elems(more);
        var i :| 0 <= i < |more| && more[i] == es;
        assert extra[i] == x;
      }
      if x in extra {
        var i :| 0 <= i < |extra| && extra[i] == x;
        assert more[i] in Elems(more);
      }
    }
  }

  /** Each new path is the node sequence of its prefix walk followed by the tail. */
  ghost predicate PathsOf(g: Graph, from: NodeId, prefixes: seq<seq<EdgeId>>, tail: seq<EdgeId>,
                          paths: seq<seq<NodeId>>) {
    |prefixes| == |paths| && forall i :: 0 <= i < |paths| ==> paths[i] == NodeSeq(g, from, prefixes[i] + tail)
  }

  lemma PathsAppend(g: Graph, from: NodeId, a: seq<seq<EdgeId>>, tail: seq<EdgeId>, p: seq<seq<NodeId>>,
                    b: seq<seq<EdgeId>>, e: EdgeId, q: seq<seq<NodeId>>)
    requires PathsOf(g, from, a, tail, p) && PathsOf(g, from, b, [e] + tail, q)
    ensures PathsOf(g, from, a + AppendAll(b, e), tail, p + q)
  {
    hide NodeSeq;
    forall i | 0 <= i < |q| ensures q[i] == NodeSeq(g, from, AppendAll(b, e)[i] + tail) {
      assert b[i] + ([e] + tail) == AppendAll(b, e)[i] + tail;
    }
  }

  /** Walk back over all predecessor lists; every complete path found is reversed and appended. */
  method ReconstructAllPaths(ghost g: Graph, from: NodeId, ghost to: NodeId, current: NodeId, preds: map<NodeId,
                             seq<NodeId>>,
                             currentPath: seq<NodeId>, allPaths: seq<seq<NodeId>>,
                             ghost dist: map<NodeId, nat>,
                             ghost entered: map<NodeId, seq<EdgeId>>, ghost tail: seq<EdgeId>)
    returns (currentPath': seq<NodeId>, allPaths': seq<seq<NodeId>>, ghost prefixes: seq<seq<EdgeId>>)
    requires Searched(g, from, to, dist, preds, entered) && to in dist
    requires current in dist && dist[current] <= dist[to]
    requires IsWalk(g, current, tail, to) && Reversed(currentPath) == NodeSeq(g, current, tail)
    ensures currentPath' == currentPath && allPaths <= allPaths'
    ensures NoDup(prefixes) && Elems(prefixes) == Walks(g, from, dist[current], current)
    ensures PathsOf(g, from, prefixes, tail, allPaths'[|allPaths|..])
    decreases dist[current]
  {
    hide *;
    currentPath', allPaths' := currentPath, allPaths;
    if current == from {
      prefixes := TrivialPrefix(g, from, to, dist, preds, entered, tail, currentPath);
      allPaths' := allPaths' + [Reversed(currentPath')];
      assert allPaths'[|allPaths|..] == [Reversed(currentPath)];
      return;
    }
    SearchedParts(g, from, to, dist, preds, entered, current);
    prefixes := [];
    if current in preds {
      ListedEdges(g, from, dist, current, preds[current], entered[current]);
      ListCoversWalks(g, from, dist, current, preds[current], entered[current]);
      NothingListed(g, from, dist[current] - 1, tail, allPaths);
      assert entered[current][..0] == [] && allPaths'[|allPaths|..] == [];
      var i := 0;
      while i < |preds[current]|
        invariant 0 <= i <= |preds[current]| && currentPath' == currentPath && allPaths <= allPaths'
        invariant NoDup(prefixes) && Elems(entered[current][..i]) <= g.edges.Keys
        invariant Elems(prefixes) == ViaLast(g, from, dist[current] - 1, Elems(entered[current][..i]))
        invariant PathsOf(g, from, prefixes, tail, allPaths'[|allPaths|..])
      {
        var pred := preds[current][i];
        ghost var e, before := entered[current][i], allPaths';
        EdgeOfList(g, from, dist, current, preds[current], entered[current], i);
        NodeSeqHead(g, e, tail, to);
        ReversedSnoc(currentPath', pred);
        currentPath' := currentPath' + [pred];
        ghost var more;
        currentPath', allPaths', more :=
          ReconstructAllPaths(g, from, to, pred, preds, currentPath', allPaths', dist, entered, [e] + tail);
        currentPath' := currentPath'[..|currentPath'| - 1];
        OneMoreList(g, from, dist[current] - 1, prefixes, entered[current][..i], e, more);
        PathsAppend(g, from, prefixes, tail, before[|allPaths|..], more, e, allPaths'[|before|..]);
        SplitNew(allPaths, before, allPaths');
        assert entered[current][..i + 1] == entered[current][..i] + [e];
        prefixes := prefixes + AppendAll(more, e);
        i := i + 1;
      }
      assert entered[current][..i] == entered[current];
    }
  }

  lemma SplitNew(a: seq<seq<NodeId>>, b: seq<seq<NodeId>>, c: seq<seq<NodeId>>)
    requires a <= b <= c
    ensures a <= c && c[|a|..] == b[|a|..] + c[|b|..]
  {
  }

  lemma TrivialPrefix(g: Graph, from: NodeId, to: NodeId, dist: map<NodeId, nat>, preds: map<NodeId, seq<NodeId>>,
                      entered: map<NodeId, seq<EdgeId>>, tail: seq<EdgeId>, path: seq<NodeId>)
                        returns (prefixes: seq<seq<EdgeId>>)
    requires Searched(g, from, to, dist, preds, entered) && Reversed(path) == NodeSeq(g, from, tail)
    ensures NoDup(prefixes) && Elems(prefixes) == Walks(g, from, dist[from], from)
    ensures PathsOf(g, from, prefixes, tail, [Reversed(path)])
  {
    prefixes := [[]];
    assert prefixes[0] + tail == tail;
    assert Elems(prefixes) == {[]};
  }

  lemma SearchedParts(g: Graph, from: NodeId, to: NodeId, dist: map<NodeId, nat>, preds: map<NodeId, seq<NodeId>>,
                      entered: map<NodeId, seq<EdgeId>>, v: NodeId)
    requires Searched(g, from, to, dist, preds, entered) && to in dist && v in dist && v != from && dist[v] <= dist[to]
    ensures v in preds && v in entered && LevelList(g, from, dist, v, preds[v], entered[v])
  {
    hide HopDistance, Reach, LevelList;
  }

  lemma ListedEdges(g: Graph, from: NodeId, dist: map<NodeId, nat>, v: NodeId, preds: seq<NodeId>, entered: seq<EdgeId>)
    requires v in dist && LevelList(g, from, dist, v, preds, entered)
    ensures |preds| == |entered| && dist[v] > 0
  {
  }

  lemma EdgeOfList(g: Graph, from: NodeId, dist: map<NodeId, nat>, v: NodeId, preds: seq<NodeId>, entered: seq<EdgeId>,
                   i: nat)
    requires v in dist && LevelList(g, from, dist, v, preds, entered) && i < |preds|
    ensures entered[i] in g.edges && g.edges[entered[i]].from == preds[i] && g.edges[entered[i]].to == v
    ensures preds[i] in dist && dist[preds[i]] + 1 == dist[v] && entered[i] !in entered[..i]
  {
  }

  lemma NothingListed(g: Graph, from: NodeId, k: nat, tail: seq<EdgeId>, allPaths: seq<seq<NodeId>>)
    ensures NoDup<seq<EdgeId>>([]) && Elems<EdgeId>([]) <= g.edges.Keys
    ensures Elems<seq<EdgeId>>([]) == ViaLast(g, from, k, Elems<EdgeId>([]))
    ensures PathsOf(g, from, [], tail, [])
  {
  }

  method AllShortestPaths(g: Graph, from: NodeId, to: NodeId) returns (paths: seq<seq<NodeId>>)
    requires WellFormed(g)
    // the node sequences of exactly the shortest walks, once per walk: parallel edges count separately
    ensures exists walks :: ListsShortestWalks(g, from, to, walks, paths)
    // nothing exactly when the target cannot be reached
    ensures paths == [] <==> !Reach(g, from, to)
    // every entry is an answer `shortest_path` may give
    ensures forall i :: 0 <= i < |paths| ==> ShortestNodePath(g, from, to, paths[i])
  {
    if from == to {
      paths := [[from]];
      SelfPath(g, from);
      ListMeansAll(g, from, to, [[]], paths);
      return;
    }
    hide *;
    var distances, preds;
    ghost var entered;
    distances, preds, entered := Search(g, from, to);
    SearchedTarget(g, from, to, distances, preds, entered);
    if to !in preds {
      paths := [];
      NoWalksListed(g, from, to);
      return;
    }
    ghost var walks;
    var path;
    assert Reversed([to]) == NodeSeq(g, to, []) && IsWalk(g, to, [], to) by {
      TailStart(g, to);
    }
    path, paths, walks := ReconstructAllPaths(g, from, to, to, preds, [to], [], distances, entered, []);
    assert paths[0..] == paths;
    WalksAreShortest(g, from, to, distances[to], walks, paths);
    ListMeansAll(g, from, to, walks, paths);
  }

  lemma SelfPath(g: Graph, v: NodeId)
    ensures ListsShortestWalks(g, v, v, [[]], [[v]])
  {
    assert IsWalk(g, v, [], v);
    assert HopWalk(g, v, 0, v);
  }

  lemma TailStart(g: Graph, v: NodeId)
    ensures Reversed([v]) == NodeSeq(g, v, []) && IsWalk(g, v, [], v)
  {
  }

  lemma SearchedTarget(g: Graph, from: NodeId, to: NodeId, dist: map<NodeId, nat>, preds: map<NodeId, seq<NodeId>>,
                       entered: map<NodeId, seq<EdgeId>>)
    requires Searched(g, from, to, dist, preds, entered) && from != to
    ensures to in preds <==> to in dist
    ensures to in preds <==> Reach(g, from, to)
    ensures to in dist ==> HopDistance(g, from, to, dist[to])
  {
    hide HopDistance, Reach, LevelList;
  }

  lemma NoWalksListed(g: Graph, from: NodeId, to: NodeId)
    requires !Reach(g, from, to)
    ensures ListsShortestWalks(g, from, to, [], [])
  {
  }

  lemma WalksAreShortest(g: Graph, from: NodeId, to: NodeId, k: nat, walks: seq<seq<EdgeId>>, paths: seq<seq<NodeId>>)
    requires HopDistance(g, from, to, k)
    requires NoDup(walks) && Elems(walks) == Walks(g, from, k, to) && PathsOf(g, from, walks, [], paths)
    ensures ListsShortestWalks(g, from, to, walks, paths)
  {
    forall es ensures es in walks <==> IsWalk(g, from, es, to) && HopDistance(g, from, to, |es|) {
      WalksExactly(g, from, k, to, es);
      assert es in walks <==> es in Elems(walks);
      if IsWalk(g, from, es, to) && HopDistance(g, from, to, |es|) {
        HopDistanceUnique(g, from, to, k, |es|);
      }
    }
    forall i | 0 <= i < |walks| ensures paths[i] == NodeSeq(g, from, walks[i]) {
      assert walks[i] + [] == walks[i];
    }
  }

  lemma ListMeansAll(g: Graph, from: NodeId, to: NodeId, walks: seq<seq<EdgeId>>, paths: seq<seq<NodeId>>)
    requires ListsShortestWalks(g, from, to, walks, paths) && walks != []
    ensures paths != [] && Reach(g, from, to)
    ensures forall i :: 0 <= i < |paths| ==> ShortestNodePath(g, from, to, paths[i])
  {
    assert walks[0] in walks;
    forall i | 0 <= i < |paths| ensures ShortestNodePath(g, from, to, paths[i]) {
      assert walks[i] in walks;
    }
  }
}
