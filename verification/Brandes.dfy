/** Betweenness centrality by Brandes' algorithm. */
module Brandes {
  import opened Collections
  import opened Multigraph
  import opened Hops
  import opened Sums
  import opened ShortestWalks
  import opened Dependencies
  import opened Betweenness

  // --------------------------------------------------------------- forward pass

  /** The distance table with -1 for nodes not reached. */
  ghost function Reached(distance: map<NodeId, int>): map<NodeId, nat> {
    map v | v in distance && distance[v] >= 0 :: distance[v]
  }

  /** sigma[v] adds up the shortest-walk counts over the edges listed for v. */
  ghost predicate SigmaTable(g: Graph, s: NodeId, dist: map<NodeId, nat>, sigma: map<NodeId, real>,
                             entered: map<NodeId, seq<EdgeId>>) {
    && sigma.Keys == entered.Keys
    && forall v :: v in sigma ==>
         sigma[v] == (if v == s then 1.0 else 0.0) + Sum(Elems(entered[v]), SigmaFrom(g, s, dist))
  }

  /** The nodes that have left the queue, by increasing distance. */
  ghost predicate PopOrder(dist: map<NodeId, nat>, queue: seq<NodeId>, stack: seq<NodeId>) {
    && NoDup(stack)
    && (forall v :: v in stack <==> v in dist && v !in queue)
    && (forall i, j :: 0 <= i < j < |stack| ==> dist[stack[i]] <= dist[stack[j]])
  }

  ghost predicate Forward(g: Graph, s: NodeId, dist: map<NodeId, nat>, queue: seq<NodeId>, todo: set<EdgeId>,
                          level: nat,
                          sigma: map<NodeId, real>, preds: map<NodeId, seq<NodeId>>,
                          entered: map<NodeId, seq<EdgeId>>) {
    && Bfs(g, s, dist, queue, todo, level)
    && PredsAgree(g, dist, queue, todo, preds, entered)
    && SigmaTable(g, s, dist, sigma, entered)
    && preds.Keys == g.nodes.Keys
  }

  lemma SigmaStable(g: Graph, s: NodeId, dist: map<NodeId, nat>, dist': map<NodeId, nat>, es: set<EdgeId>)
    requires dist.Keys <= dist'.Keys && forall v :: v in dist ==> dist'[v] == dist[v]
    requires forall e :: e in es ==> e in g.edges && g.edges[e].from in dist
    ensures Sum(es, SigmaFrom(g, s, dist)) == Sum(es, SigmaFrom(g, s, dist'))
  {
    hide Count, Sum;
    SumCong(es, SigmaFrom(g, s, dist), SigmaFrom(g, s, dist'));
  }

  lemma SigmaKept(g: Graph, s: NodeId, dist: map<NodeId, nat>, queue: seq<NodeId>, todo: set<EdgeId>,
                  dist': map<NodeId, nat>, queue': seq<NodeId>, todo': set<EdgeId>, e: EdgeId, sigma: map<NodeId, real>,
                  preds: map<NodeId, seq<NodeId>>, entered: map<NodeId, seq<EdgeId>>)
    requires OneMoreEdge(g, dist, queue, todo, dist', queue', todo', e)
    requires PredsAgree(g, dist, queue, todo, preds, entered) && SigmaTable(g, s, dist, sigma, entered)
    ensures SigmaTable(g, s, dist', sigma, entered)
  {
    hide Sum, SigmaFrom;
    forall v | v in sigma
      ensures sigma[v] == (if v == s then 1.0 else 0.0) + Sum(Elems(entered[v]), SigmaFrom(g, s, dist'))
    {
      assert PredsOf(g, dist, queue, todo, v, preds[v], entered[v]);
      SigmaStable(g, s, dist, dist', Elems(entered[v]));
    }
  }

  lemma SigmaAppend(g: Graph, s: NodeId, dist: map<NodeId, nat>, sigma: map<NodeId, real>,
                    entered: map<NodeId, seq<EdgeId>>, e: EdgeId, x: real)
    requires SigmaTable(g, s, dist, sigma, entered)
    requires e in g.edges && g.edges[e].to in entered && e !in entered[g.edges[e].to]
    requires x == Sigma(g, s, dist, g.edges[e].from)
    ensures var to := g.edges[e].to;
            SigmaTable(g, s, dist, sigma[to := sigma[to] + x], entered[to := entered[to] + [e]])
  {
    hide Sum, Sigma;
    var to := g.edges[e].to;
    assert Elems(entered[to] + [e]) == Elems(entered[to]) + {e};
    SumInsert(Elems(entered[to]), SigmaFrom(g, s, dist), e);
  }

  /** A level edge: append to the list and add the count. */
  lemma ForwardLevelEdge(g: Graph, s: NodeId, dist: map<NodeId, nat>, queue: seq<NodeId>, todo: set<EdgeId>, level: nat,
                         dist': map<NodeId, nat>, queue': seq<NodeId>, todo': set<EdgeId>, sigma: map<NodeId, real>,
                         preds: map<NodeId, seq<NodeId>>, entered: map<NodeId, seq<EdgeId>>,
                         e: EdgeId, from: NodeId, to: NodeId, x: real)
    requires Forward(g, s, dist, queue, todo, level, sigma, preds, entered)
    requires OneMoreEdge(g, dist, queue, todo, dist', queue', todo', e) && Bfs(g, s, dist', queue', todo', level)
    requires e in g.edges && g.edges[e].from == from && g.edges[e].to == to && to in g.nodes
    requires to in dist' && from in dist' && dist'[from] + 1 == dist'[to]
    requires x == Sigma(g, s, dist', from)
    ensures to in sigma && to in preds && to in entered
    ensures Forward(g, s, dist', queue', todo', level, sigma[to := sigma[to] + x],
                    preds[to := preds[to] + [from]], entered[to := entered[to] + [e]])
  {
    hide *;
    ForwardParts(g, s, dist, queue, todo, level, sigma, preds, entered);
    assert to in g.nodes.Keys;
    NotYetEntered(g, dist, queue, todo, dist', queue', todo', e, preds, entered);
    SigmaKept(g, s, dist, queue, todo, dist', queue', todo', e, sigma, preds, entered);
    PredsAppend(g, dist, queue, todo, dist', queue', todo', e, preds, entered);
    SigmaAppend(g, s, dist', sigma, entered, e, x);
    ForwardFromParts(g, s, dist', queue', todo', level, sigma[to := sigma[to] + x],
                     preds[to := preds[to] + [from]], entered[to := entered[to] + [e]]);
  }

  lemma NotYetEntered(g: Graph, dist: map<NodeId, nat>, queue: seq<NodeId>, todo: set<EdgeId>,
                      dist': map<NodeId, nat>, queue': seq<NodeId>, todo': set<EdgeId>, e: EdgeId,
                      preds: map<NodeId, seq<NodeId>>, entered: map<NodeId, seq<EdgeId>>)
    requires OneMoreEdge(g, dist, queue, todo, dist', queue', todo', e)
    requires PredsAgree(g, dist, queue, todo, preds, entered) && g.edges[e].to in preds
    ensures e !in entered[g.edges[e].to]
  {
    var to := g.edges[e].to;
    assert PredsOf(g, dist, queue, todo, to, preds[to], entered[to]);
  }

  lemma ForwardFromParts(g: Graph, s: NodeId, dist: map<NodeId, nat>, queue: seq<NodeId>, todo: set<EdgeId>, level: nat,
                         sigma: map<NodeId, real>, preds: map<NodeId, seq<NodeId>>, entered: map<NodeId, seq<EdgeId>>)
    requires Bfs(g, s, dist, queue, todo, level) && PredsAgree(g, dist, queue, todo, preds, entered)
    requires SigmaTable(g, s, dist, sigma, entered) && preds.Keys == g.nodes.Keys
    ensures Forward(g, s, dist, queue, todo, level, sigma, preds, entered)
  {
    hide Bfs, PredsAgree, SigmaTable;
  }

  lemma ForwardOtherEdge(g: Graph, s: NodeId, dist: map<NodeId, nat>, queue: seq<NodeId>, todo: set<EdgeId>, level: nat,
                         sigma: map<NodeId, real>, preds: map<NodeId, seq<NodeId>>,
                         entered: map<NodeId, seq<EdgeId>>, e: EdgeId)
    requires Forward(g, s, dist, queue, todo, level, sigma, preds, entered)
    requires OneMoreEdge(g, dist, queue, todo, dist, queue, todo - {e}, e) && Bfs(g, s, dist, queue, todo - {e}, level)
    requires g.edges[e].to in dist && dist[g.edges[e].from] + 1 != dist[g.edges[e].to]
    ensures Forward(g, s, dist, queue, todo - {e}, level, sigma, preds, entered)
  {
    hide *;
    ForwardParts(g, s, dist, queue, todo, level, sigma, preds, entered);
    PredsSame(g, dist, queue, todo, dist, queue, todo - {e}, e, preds, entered);
    ForwardFromParts(g, s, dist, queue, todo - {e}, level, sigma, preds, entered);
  }

  /** Once the level above has left the queue, sigma[v] is the number of shortest walks to v. */
  lemma SigmaComplete(g: Graph, s: NodeId, dist: map<NodeId, nat>, queue: seq<NodeId>, level: nat,
                      sigma: map<NodeId, real>, preds: map<NodeId, seq<NodeId>>,
                      entered: map<NodeId, seq<EdgeId>>, v: NodeId)
    requires Forward(g, s, dist, queue, {}, level, sigma, preds, entered)
    requires v in dist && v in sigma && forall x :: x in queue && x in dist ==> dist[v] <= dist[x]
    ensures sigma[v] == Sigma(g, s, dist, v)
  {
    hide Sum, Sigma, HopDistance, HopWalk;
    PredsComplete(g, dist, queue, v, preds[v], entered[v]);
    forall x | x in dist ensures HopDistance(g, s, x, dist[x]) {
      BfsExact(g, s, dist, queue, level, x);
    }
    if v == s {
      SourceSigma(g, s, dist);
    } else {
      UpperLevelKnown(g, s, dist, queue, level, v);
      SigmaIn(g, s, dist, v);
    }
  }

  lemma SourceSigma(g: Graph, s: NodeId, dist: map<NodeId, nat>)
    requires s in dist && dist[s] == 0
    ensures Sigma(g, s, dist, s) == 1.0 && Sum(DagIn(g, dist, s), SigmaFrom(g, s, dist)) == 0.0
  {
    CountZero(g, s, s);
    assert DagIn(g, dist, s) == {};
  }

  lemma UpperLevelKnown(g: Graph, s: NodeId, dist: map<NodeId, nat>, queue: seq<NodeId>, level: nat, v: NodeId)
    requires Bfs(g, s, dist, queue, {}, level) && v in dist && v != s
    ensures dist[v] > 0
    ensures forall u :: HopWalk(g, s, dist[v] - 1, u) ==> u in dist
  {
    assert HopWalk(g, s, dist[v], v);
    var w :| IsWalk(g, s, w, v) && |w| == dist[v];
    assert dist[v] > 0;
    forall u | HopWalk(g, s, dist[v] - 1, u) ensures u in dist {
      var es :| IsWalk(g, s, es, u) && |es| == dist[v] - 1;
      WalkBound(g, s, dist, queue, level, es, u);
    }
  }

  lemma PushPopped(dist: map<NodeId, nat>, queue: seq<NodeId>, level: nat, stack: seq<NodeId>)
    requires Wavefront(dist, queue, level) && queue != [] && PopOrder(dist, queue, stack)
    ensures PopOrder(dist, queue[1..], stack + [queue[0]])
  {
    var stack' := stack + [queue[0]];
    assert forall v :: v in queue <==> v == queue[0] || v in queue[1..];
    assert forall v :: v in stack' <==> v in stack || v == queue[0];
    forall i, j | 0 <= i < j < |stack'| ensures dist[stack'[i]] <= dist[stack'[j]] {
      if j == |stack| {
        assert stack'[i] in stack;
      }
    }
  }

  lemma PopOrderDiscover(dist: map<NodeId, nat>, queue: seq<NodeId>, stack: seq<NodeId>, v: NodeId, k: nat)
    requires PopOrder(dist, queue, stack) && v !in dist
    ensures PopOrder(dist[v := k], queue + [v], stack)
  {
  }

  /** All edges out of the node just popped. */
  method ForwardEdges(g: Graph, ghost s: NodeId, v: NodeId, distance: map<NodeId, int>, queue: seq<NodeId>,
                      sigma: map<NodeId, real>, preds: map<NodeId, seq<NodeId>>,
                      ghost entered: map<NodeId, seq<EdgeId>>, ghost stack: seq<NodeId>)
    returns (distance': map<NodeId, int>, queue': seq<NodeId>, sigma': map<NodeId, real>,
             preds': map<NodeId, seq<NodeId>>, ghost entered': map<NodeId, seq<EdgeId>>)
    requires WellFormed(g) && distance.Keys == g.nodes.Keys && v in distance && distance[v] >= 0 && v !in queue
    requires Forward(g, s, Reached(distance), queue, Out(g, v), distance[v], sigma, preds, entered)
    requires sigma.Keys == g.nodes.Keys && sigma[v] == Sigma(g, s, Reached(distance), v)
    requires PopOrder(Reached(distance), queue, stack)
    ensures distance'.Keys == g.nodes.Keys && sigma'.Keys == g.nodes.Keys
    ensures Forward(g, s, Reached(distance'), queue', {}, distance[v], sigma', preds', entered')
    ensures PopOrder(Reached(distance'), queue', stack)
  {
    hide *;
    distance', queue', sigma', preds', entered' := distance, queue, sigma, preds, entered;
    var vDist := distance[v];
    var todo := Out(g, v);
    while todo != {}
      invariant todo <= Out(g, v) && distance'.Keys == g.nodes.Keys && sigma'.Keys == g.nodes.Keys
      invariant distance'[v] == vDist && v !in queue'
      invariant Forward(g, s, Reached(distance'), queue', todo, vDist, sigma', preds', entered')
      invariant sigma'[v] == Sigma(g, s, Reached(distance'), v) && PopOrder(Reached(distance'), queue', stack)
    {
      var e :| e in todo;
      OutEdge(g, v, e);
      var w := g.edges[e].to;
      ghost var dist, waiting := Reached(distance'), queue';
      ReachedAt(distance', v);
      ReachedAt(distance', w);
      ForwardParts(g, s, dist, queue', todo, vDist, sigma', preds', entered');
      if distance'[w] < 0 {
        DiscoverOneMore(g, s, dist, queue', todo, vDist, e);
        PopOrderDiscover(dist, queue', stack, w, vDist + 1);
        ReachedUpdate(distance', w, vDist + 1);
        distance' := distance'[w := vDist + 1];
        queue' := queue' + [w];
        ReachedAt(distance', w);
        ReachedAt(distance', v);
      } else {
        KnownOneMore(g, s, dist, queue', todo, vDist, e);
      }
      if distance'[w] == vDist + 1 {
        SigmaUnchanged(g, s, dist, Reached(distance'), v);
        ForwardLevelEdge(g, s, dist, waiting, todo, vDist, Reached(distance'), queue', todo - {e}, sigma', preds',
                         entered',
                         e, v, w, sigma'[v]);
        sigma' := sigma'[w := sigma'[w] + sigma'[v]];
        preds' := preds'[w := preds'[w] + [v]];
        entered' := entered'[w := entered'[w] + [e]];
      } else {
        ForwardOtherEdge(g, s, dist, queue', todo, vDist, sigma', preds', entered', e);
      }
      todo := todo - {e};
    }
  }

  lemma ForwardParts(g: Graph, s: NodeId, dist: map<NodeId, nat>, queue: seq<NodeId>, todo: set<EdgeId>, level: nat,
                     sigma: map<NodeId, real>, preds: map<NodeId, seq<NodeId>>, entered: map<NodeId, seq<EdgeId>>)
    requires Forward(g, s, dist, queue, todo, level, sigma, preds, entered)
    ensures Bfs(g, s, dist, queue, todo, level) && PredsAgree(g, dist, queue, todo, preds, entered)
    ensures SigmaTable(g, s, dist, sigma, entered) && preds.Keys == entered.Keys == sigma.Keys == g.nodes.Keys
  {
    hide Bfs;
  }

  lemma ReachedAt(distance: map<NodeId, int>, v: NodeId)
    requires v in distance
    ensures v in Reached(distance) <==> distance[v] >= 0
    ensures v in Reached(distance) ==> Reached(distance)[v] == distance[v]
  {
  }

  lemma ReachedKeys(distance: map<NodeId, int>)
    ensures Reached(distance).Keys <= distance.Keys
  {
  }

  lemma ReachedUpdate(distance: map<NodeId, int>, v: NodeId, k: nat)
    ensures Reached(distance[v := k]) == Reached(distance)[v := k]
  {
  }

  lemma SigmaUnchanged(g: Graph, s: NodeId, dist: map<NodeId, nat>, dist': map<NodeId, nat>, v: NodeId)
    requires v in dist && v in dist' && dist'[v] == dist[v]
    ensures Sigma(g, s, dist', v) == Sigma(g, s, dist, v)
  {
  }

  /** What the backward pass relies on. */
  ghost predicate Counted(g: Graph, s: NodeId, dist: map<NodeId, nat>, stack: seq<NodeId>, sigma: map<NodeId, real>,
                          preds: map<NodeId, seq<NodeId>>, entered: map<NodeId, seq<EdgeId>>) {
    && HopTable(g, s, dist) && dist.Keys <= g.nodes.Keys && s in g.nodes
    && PopOrder(dist, [], stack)
    && sigma.Keys == preds.Keys == entered.Keys == g.nodes.Keys
    && (forall v :: v in dist ==> sigma[v] == Sigma(g, s, dist, v))
    && (forall v :: v in dist ==> Listed(g, dist, v, preds[v], entered[v]))
  }

  /** preds lists the source of each level edge into v once, in the order of `entered`. */
  ghost predicate Listed(g: Graph, dist: map<NodeId, nat>, v: NodeId, preds: seq<NodeId>, entered: seq<EdgeId>) {
    && |preds| == |entered| && NoDup(entered) && Elems(entered) == DagIn(g, dist, v)
    && forall i :: 0 <= i < |entered| ==> entered[i] in g.edges && g.edges[entered[i]].from == preds[i]
  }

  lemma ForwardDone(g: Graph, s: NodeId, dist: map<NodeId, nat>, level: nat, stack: seq<NodeId>, sigma: map<NodeId,
                    real>,
                    preds: map<NodeId, seq<NodeId>>, entered: map<NodeId, seq<EdgeId>>)
    requires Forward(g, s, dist, [], {}, level, sigma, preds, entered) && PopOrder(dist, [], stack) && s in g.nodes
    ensures Counted(g, s, dist, stack, sigma, preds, entered)
  {
    hide Sum, Sigma, HopDistance, Reach, PopOrder, Scanned, Wavefront;
    BfsDone(g, s, dist, level);
    forall v | v in dist ensures sigma[v] == Sigma(g, s, dist, v) && Listed(g, dist, v, preds[v], entered[v]) {
      SigmaComplete(g, s, dist, [], level, sigma, preds, entered, v);
      assert PredsOf(g, dist, [], {}, v, preds[v], entered[v]);
      PredsComplete(g, dist, [], v, preds[v], entered[v]);
    }
  }

  lemma ForwardStart(g: Graph, s: NodeId, distance: map<NodeId, int>, sigma: map<NodeId, real>, preds: map<NodeId,
                     seq<NodeId>>,
                     entered: map<NodeId, seq<EdgeId>>)
    requires s in g.nodes && distance.Keys == sigma.Keys == preds.Keys == entered.Keys == g.nodes.Keys
    requires forall v :: v in distance ==> distance[v] == if v == s then 0 else -1
    requires forall v :: v in sigma ==> sigma[v] == if v == s then 1.0 else 0.0
    requires forall v :: v in preds ==> preds[v] == [] && entered[v] == []
    ensures Forward(g, s, Reached(distance), [s], {}, 0, sigma, preds, entered)
    ensures PopOrder(Reached(distance), [s], [])
  {
    BfsStart(g, s);
    assert Reached(distance) == map[s := 0];
    assert Elems<EdgeId>([]) == {};
  }

  method ForwardPass(g: Graph, source: NodeId)
    returns (stack: seq<NodeId>, sigma: map<NodeId, real>, preds: map<NodeId, seq<NodeId>>,
             ghost dist: map<NodeId, nat>, ghost entered: map<NodeId, seq<EdgeId>>)
    requires WellFormed(g) && source in g.nodes
    ensures Counted(g, source, dist, stack, sigma, preds, entered)
    // sigma is the number of walks with the fewest edges
    ensures forall v, n: nat :: HopDistance(g, source, v, n) ==> v in sigma && sigma[v] == Count(g, source, n, v)
  {
    hide *;
    preds := map v | v in g.nodes :: [];
    sigma := map v | v in g.nodes :: 0.0;
    var distance: map<NodeId, int> := map v | v in g.nodes :: -1;
    sigma := sigma[source := 1.0];
    distance := distance[source := 0];
    entered := map v | v in g.nodes :: [];
    ForwardStart(g, source, distance, sigma, preds, entered);
    var queue := [source];
    stack := [];
    ghost var level: nat := 0;
    ghost var waiting := g.nodes.Keys;
    while queue != []
      invariant distance.Keys == sigma.Keys == g.nodes.Keys
      invariant Forward(g, source, Reached(distance), queue, {}, level, sigma, preds, entered)
      invariant PopOrder(Reached(distance), queue, stack)
      invariant forall v :: v in g.nodes.Keys && v !in stack ==> v in waiting
      decreases waiting
    {
      var v := queue[0];
      ReachedKeys(distance);
      PopNode(g, source, Reached(distance), queue, level, stack, sigma, preds, entered);
      ReachedAt(distance, v);
      queue := queue[1..];
      stack := stack + [v];
      waiting := waiting - {v};
      level := distance[v];
      distance, queue, sigma, preds, entered :=
        ForwardEdges(g, source, v, distance, queue, sigma, preds, entered, stack);
    }
    dist := Reached(distance);
    ForwardDone(g, source, dist, level, stack, sigma, preds, entered);
    SigmaCounts(g, source, dist, stack, sigma, preds, entered);
  }

  lemma SigmaCounts(g: Graph, s: NodeId, dist: map<NodeId, nat>, stack: seq<NodeId>, sigma: map<NodeId, real>,
                    preds: map<NodeId, seq<NodeId>>, entered: map<NodeId, seq<EdgeId>>)
    requires Counted(g, s, dist, stack, sigma, preds, entered)
    ensures forall v, n: nat :: HopDistance(g, s, v, n) ==> v in sigma && sigma[v] == Count(g, s, n, v)
  {
    CountedParts(g, s, dist, stack, sigma, preds, entered);
    hide Counted, Count, PopOrder, Listed;
    forall v, n: nat | HopDistance(g, s, v, n) ensures v in sigma && sigma[v] == Count(g, s, n, v) {
      HopTableAt(g, s, dist, v, n);
    }
  }

  lemma HopTableAt(g: Graph, s: NodeId, dist: map<NodeId, nat>, v: NodeId, n: nat)
    requires HopTable(g, s, dist) && HopDistance(g, s, v, n)
    ensures v in dist && dist[v] == n
  {
    assert HopWalk(g, s, n, v);
    assert Reach(g, s, v);
    HopDistanceUnique(g, s, v, n, dist[v]);
  }

  lemma PopNode(g: Graph, s: NodeId, dist: map<NodeId, nat>, queue: seq<NodeId>, level: nat, stack: seq<NodeId>,
                sigma: map<NodeId, real>, preds: map<NodeId, seq<NodeId>>, entered: map<NodeId, seq<EdgeId>>)
    requires Forward(g, s, dist, queue, {}, level, sigma, preds, entered) && PopOrder(dist, queue, stack)
    requires queue != [] && dist.Keys <= g.nodes.Keys
    ensures var v := queue[0];
      && v in dist && v in sigma && v !in queue[1..] && v !in stack
      && sigma[v] == Sigma(g, s, dist, v)
      && Forward(g, s, dist, queue[1..], Out(g, v), dist[v], sigma, preds, entered)
      && PopOrder(dist, queue[1..], stack + [v])
  {
    hide *;
    var v := queue[0];
    ForwardParts(g, s, dist, queue, {}, level, sigma, preds, entered);
    FrontIsLeast(g, s, dist, queue, level);
    SigmaComplete(g, s, dist, queue, level, sigma, preds, entered, v);
    PushPopped(dist, queue, level, stack);
    NotInStack(dist, queue, stack, v);
    BfsPop(g, s, dist, queue, level);
    PredsPop(g, dist, queue, queue[1..], Out(g, v), preds, entered);
    ForwardFromParts(g, s, dist, queue[1..], Out(g, v), dist[v], sigma, preds, entered);
  }

  lemma NotInStack(dist: map<NodeId, nat>, queue: seq<NodeId>, stack: seq<NodeId>, v: NodeId)
    requires PopOrder(dist, queue, stack) && v in queue
    ensures v !in stack
  {
  }

  // -------------------------------------------------------------- backward pass

  /** The level edges out of v whose target has been handled, or that are listed in `extra`. */
  ghost function Handled(g: Graph, dist: map<NodeId, nat>, done: seq<NodeId>, extra: seq<EdgeId>,
                         v: NodeId): set<EdgeId> {
    set e | e in DagOut(g, dist, v) && (g.edges[e].to in done || e in extra)
  }

  ghost predicate DeltaTable(g: Graph, s: NodeId, dist: map<NodeId, nat>, delta: map<NodeId, real>,
                             done: seq<NodeId>, extra: seq<EdgeId>) {
    && delta.Keys == g.nodes.Keys
    && forall v :: v in dist && v in delta ==> delta[v] == Sum(Handled(g, dist, done, extra, v), Share(g, s, dist))
  }

  lemma DeltaStart(g: Graph, s: NodeId, dist: map<NodeId, nat>, delta: map<NodeId, real>)
    requires delta == map v | v in g.nodes :: 0.0
    ensures DeltaTable(g, s, dist, delta, [], [])
  {
    forall v ensures Handled(g, dist, [], [], v) == {} {
    }
  }

  lemma DeltaAdd(g: Graph, s: NodeId, dist: map<NodeId, nat>, delta: map<NodeId, real>, done: seq<NodeId>,
                 extra: seq<EdgeId>, e: EdgeId, v: NodeId, x: real)
    requires DeltaTable(g, s, dist, delta, done, extra) && dist.Keys <= g.nodes.Keys
    requires e in DagOut(g, dist, v) && e !in extra && g.edges[e].to !in done && x == Share(g, s, dist)(e)
    ensures v in delta && DeltaTable(g, s, dist, delta[v := delta[v] + x], done, extra + [e])
  {
    hide Sum, Share;
    assert v in dist;
    forall u | u in dist ensures
      Handled(g, dist, done, extra + [e], u) == Handled(g, dist, done, extra, u) + (if u == v then {e} else {})
    {
      assert forall x :: x in extra + [e] <==> x in extra || x == e;
    }
    assert e !in Handled(g, dist, done, extra, v);
    SumInsert(Handled(g, dist, done, extra, v), Share(g, s, dist), e);
    hide Handled;
    forall u | u in dist && u != v ensures Handled(g, dist, done, extra + [e], u) == Handled(g, dist, done, extra, u) {
      SetPlusNothing(Handled(g, dist, done, extra, u));
    }
  }

  lemma SetPlusNothing(a: set<EdgeId>)
    ensures a + {} == a
  {
  }

  lemma DeltaClose(g: Graph, s: NodeId, dist: map<NodeId, nat>, delta: map<NodeId, real>, done: seq<NodeId>,
                   w: NodeId, entered: seq<EdgeId>)
    requires DeltaTable(g, s, dist, delta, done, entered) && Elems(entered) == DagIn(g, dist, w)
    ensures DeltaTable(g, s, dist, delta, [w] + done, [])
  {
    hide Sum, Share;
    forall v | v in dist ensures Handled(g, dist, done, entered, v) == Handled(g, dist, [w] + done, [], v) {
      forall e | e in DagOut(g, dist, v) ensures e in entered <==> g.edges[e].to == w {
        assert e in entered <==> e in Elems(entered);
      }
    }
  }

  /** When all deeper nodes are handled, delta is the dependency. */
  lemma DeltaFinal(g: Graph, s: NodeId, dist: map<NodeId, nat>, delta: map<NodeId, real>, done: seq<NodeId>, w: NodeId)
    requires HopTable(g, s, dist) && DeltaTable(g, s, dist, delta, done, []) && w in dist && w in delta
    requires forall x :: x in dist && dist[x] > dist[w] ==> x in done
    ensures delta[w] == Dependency(g, s, dist, w)
  {
    hide HopTable, Sum, Share, Dependency;
    DependencyRecurrence(g, s, dist, w);
    assert delta[w] == Sum(Handled(g, dist, done, [], w), Share(g, s, dist));
    hide DeltaTable;
    assert Handled(g, dist, done, [], w) == DagOut(g, dist, w);
  }

  /** Hand back to every predecessor of w, which is about to be handled. */
  method HandBack(ghost g: Graph, ghost s: NodeId, ghost dist: map<NodeId, nat>, w: NodeId, sigma: map<NodeId, real>,
                  preds: seq<NodeId>, delta: map<NodeId, real>, ghost entered: seq<EdgeId>, ghost done: seq<NodeId>)
    returns (delta': map<NodeId, real>)
    requires HopTable(g, s, dist) && dist.Keys <= g.nodes.Keys && sigma.Keys == g.nodes.Keys
    requires forall v :: v in dist ==> sigma[v] == Sigma(g, s, dist, v)
    requires w in dist && w !in done && Listed(g, dist, w, preds, entered)
    requires DeltaTable(g, s, dist, delta, done, []) && delta[w] == Dependency(g, s, dist, w)
    ensures DeltaTable(g, s, dist, delta', [w] + done, []) && delta'[w] == delta[w]
  {
    hide *;
    SigmaPositive(g, s, dist, w);
    ListedSizes(g, dist, w, preds, entered);
    delta' := delta;
    DeltaKeys(g, s, dist, delta, done, []);
    assert entered[..0] == [];
    var i := 0;
    while i < |preds|
      invariant 0 <= i <= |preds| && delta'.Keys == g.nodes.Keys && delta'[w] == delta[w]
      invariant DeltaTable(g, s, dist, delta', done, entered[..i])
    {
      var v := preds[i];
      ghost var e := entered[i];
      LevelEdge(g, dist, w, preds, entered, i);
      var contribution := sigma[v] / sigma[w] * (1.0 + delta'[w]);
      assert v in dist.Keys;
      ShareValue(g, s, dist, e, contribution);
      DeltaAdd(g, s, dist, delta', done, entered[..i], e, v, contribution);
      assert entered[..i + 1] == entered[..i] + [e];
      delta' := delta'[v := delta'[v] + contribution];
      i := i + 1;
    }
    assert entered[..i] == entered;
    DeltaClose(g, s, dist, delta', done, w, entered);
  }

  lemma DeltaKeys(g: Graph, s: NodeId, dist: map<NodeId, nat>, delta: map<NodeId, real>, done: seq<NodeId>,
                  extra: seq<EdgeId>)
    requires DeltaTable(g, s, dist, delta, done, extra)
    ensures delta.Keys == g.nodes.Keys
  {
  }

  lemma ListedSizes(g: Graph, dist: map<NodeId, nat>, w: NodeId, preds: seq<NodeId>, entered: seq<EdgeId>)
    requires Listed(g, dist, w, preds, entered)
    ensures |preds| == |entered| && Elems(entered) == DagIn(g, dist, w)
  {
  }

  lemma LevelEdge(g: Graph, dist: map<NodeId, nat>, w: NodeId, preds: seq<NodeId>, entered: seq<EdgeId>, i: nat)
    requires Listed(g, dist, w, preds, entered) && i < |preds|
    ensures var e := entered[i];
      && e in g.edges && g.edges[e].to == w && g.edges[e].from == preds[i]
      && preds[i] in dist && preds[i] != w && e in DagOut(g, dist, preds[i]) && e !in entered[..i]
  {
    assert entered[i] in Elems(entered);
  }

  lemma ShareValue(g: Graph, s: NodeId, dist: map<NodeId, nat>, e: EdgeId, x: real)
    requires e in g.edges && Sigma(g, s, dist, g.edges[e].to) >= 1.0
    requires x == Sigma(g, s, dist, g.edges[e].from) / Sigma(g, s, dist, g.edges[e].to) *
             (1.0 + Dependency(g, s, dist, g.edges[e].to))
    ensures x == Share(g, s, dist)(e)
  {
    hide Sigma, Dependency;
  }

  ghost function PartialOf(partials: map<NodeId, real>): nat -> real {
    (v: nat) => if v in partials then partials[v] else 0.0
  }

  /** Handled nodes other than the source carry their dependency, all others nothing yet. */
  ghost predicate PartialTable(g: Graph, s: NodeId, dist: map<NodeId, nat>, partials: map<NodeId, real>,
                               done: seq<NodeId>) {
    && partials.Keys == g.nodes.Keys
    && forall v :: v in partials ==> partials[v] == if v in done && v != s then Dependency(g, s, dist, v) else 0.0
  }

  /** Contribution of one source to the betweenness of every node. */
  method BrandesSingle(g: Graph, source: NodeId) returns (partials: map<NodeId, real>, ghost dist: map<NodeId, nat>)
    requires WellFormed(g) && source in g.nodes
    ensures HopTable(g, source, dist) && dist.Keys <= g.nodes.Keys && partials.Keys == g.nodes.Keys
    // each node gets the share of shortest walks from the source that pass through it, summed over all targets
    ensures forall v :: v in partials ==>
      partials[v] == if v in dist && v != source then Dependency(g, source, dist, v) else 0.0
    // and all shares together are the inner nodes of shortest walks, one walk per reachable target
    ensures Sum(partials.Keys, PartialOf(partials)) == Sum(dist.Keys - {source}, Interior(dist))
  {
    hide *;
    var stack, sigma, preds;
    ghost var entered;
    stack, sigma, preds, dist, entered := ForwardPass(g, source);
    CountedParts(g, source, dist, stack, sigma, preds, entered);
    var delta: map<NodeId, real> := map v | v in g.nodes :: 0.0;
    partials := map v | v in g.nodes :: 0.0;
    DeltaStart(g, source, dist, delta);
    PartialStart(g, source, dist, partials);
    assert stack[|stack|..] == [];
    var i := |stack|;
    while i > 0
      invariant 0 <= i <= |stack| && delta.Keys == partials.Keys == g.nodes.Keys
      invariant DeltaTable(g, source, dist, delta, stack[i..], [])
      invariant PartialTable(g, source, dist, partials, stack[i..])
    {
      i := i - 1;
      var w := stack[i];
      NextFromStack(dist, stack, i);
      assert w in dist.Keys;
      DeltaFinal(g, source, dist, delta, stack[i + 1..], w);
      delta := HandBack(g, source, dist, w, sigma, preds[w], delta, entered[w], stack[i + 1..]);
      DeltaKeys(g, source, dist, delta, stack[i..], []);
      PartialNext(g, source, dist, partials, stack, i, delta[w]);
      if w != source {
        partials := partials[w := partials[w] + delta[w]];
      }
    }
    assert stack[0..] == stack;
    PartialTotal(g, source, dist, partials, stack);
  }

  lemma CountedParts(g: Graph, s: NodeId, dist: map<NodeId, nat>, stack: seq<NodeId>, sigma: map<NodeId, real>,
                     preds: map<NodeId, seq<NodeId>>, entered: map<NodeId, seq<EdgeId>>)
    requires Counted(g, s, dist, stack, sigma, preds, entered)
    ensures HopTable(g, s, dist) && dist.Keys <= g.nodes.Keys && PopOrder(dist, [], stack)
    ensures sigma.Keys == preds.Keys == entered.Keys == g.nodes.Keys
    ensures forall v :: v in dist ==> sigma[v] == Sigma(g, s, dist, v)
    ensures forall v :: v in dist ==> Listed(g, dist, v, preds[v], entered[v])
  {
    hide HopTable, PopOrder, Sigma, Listed;
  }

  lemma PartialStart(g: Graph, s: NodeId, dist: map<NodeId, nat>, partials: map<NodeId, real>)
    requires partials == map v | v in g.nodes :: 0.0
    ensures PartialTable(g, s, dist, partials, [])
  {
  }

  lemma PartialNext(g: Graph, s: NodeId, dist: map<NodeId, nat>, partials: map<NodeId, real>, stack: seq<NodeId>,
                    i: nat, x: real)
    requires i < |stack| && stack[i] in g.nodes && stack[i] !in stack[i + 1..]
    requires forall v :: v in stack[i..] <==> v == stack[i] || v in stack[i + 1..]
    requires PartialTable(g, s, dist, partials, stack[i + 1..]) && x == Dependency(g, s, dist, stack[i])
    ensures stack[i] in partials
    ensures stack[i] == s ==> PartialTable(g, s, dist, partials, stack[i..])
    ensures stack[i] != s ==> PartialTable(g, s, dist, partials[stack[i] := partials[stack[i]] + x], stack[i..])
  {
    hide Dependency;
  }

  lemma NextFromStack(dist: map<NodeId, nat>, stack: seq<NodeId>, i: nat)
    requires PopOrder(dist, [], stack) && i < |stack|
    ensures [stack[i]] + stack[i + 1..] == stack[i..]
    ensures stack[i] in dist && stack[i] !in stack[i + 1..]
    ensures forall x :: x in dist && dist[x] > dist[stack[i]] ==> x in stack[i + 1..]
    ensures forall v :: v in stack[i..] <==> v == stack[i] || v in stack[i + 1..]
  {
    assert stack[i] in stack;
    forall x | x in dist && dist[x] > dist[stack[i]] ensures x in stack[i + 1..] {
      assert x in stack;
      var j :| 0 <= j < |stack| && stack[j] == x;
      assert stack[i + 1..][j - (i + 1)] == x;
    }
  }

  lemma PartialTotal(g: Graph, s: NodeId, dist: map<NodeId, nat>, partials: map<NodeId, real>, stack: seq<NodeId>)
    requires HopTable(g, s, dist) && dist.Keys <= g.nodes.Keys && PopOrder(dist, [], stack)
    requires PartialTable(g, s, dist, partials, stack)
    ensures forall v :: v in partials ==> partials[v] == if v in dist && v != s then Dependency(g, s, dist, v) else 0.0
    ensures Sum(partials.Keys, PartialOf(partials)) == Sum(dist.Keys - {s}, Interior(dist))
  {
    hide HopTable, Dependency, Sum;
    var keys := dist.Keys - {s};
    SumSupport(keys, partials.Keys, PartialOf(partials));
    SumCong(keys, PartialOf(partials), DependencyOf(g, s, dist));
    TotalDependency(g, s, dist);
  }

  // ------------------------------------------------------- betweenness_centrality

  /** What the source s adds to the betweenness of v, given the hop table of s. */
  ghost function FromSource(g: Graph, tables: map<NodeId, map<NodeId, nat>>, v: NodeId): nat -> real {
    (s: nat) => if s in tables && v in tables[s] && v != s then Dependency(g, s, tables[s], v) else 0.0
  }

  method Merge(centrality: map<NodeId, real>, partials: map<NodeId, real>) returns (merged: map<NodeId, real>)
    requires centrality.Keys == partials.Keys
    ensures merged.Keys == centrality.Keys
    ensures forall v :: v in merged ==> merged[v] == centrality[v] + partials[v]
  {
    merged := centrality;
    var todo := partials.Keys;
    while todo != {}
      invariant todo <= partials.Keys && merged.Keys == centrality.Keys
      invariant forall v :: v in merged ==>
        merged[v] == if v in todo then centrality[v] else centrality[v] + partials[v]
    {
      var v :| v in todo;
      merged := merged[v := merged[v] + partials[v]];
      todo := todo - {v};
    }
  }

  lemma AddSource(g: Graph, tables: map<NodeId, map<NodeId, nat>>, s: NodeId, table: map<NodeId, nat>, v: NodeId,
                  x: real)
    requires s !in tables
    requires x == if v in table && v != s then Dependency(g, s, table, v) else 0.0
    ensures Sum(tables.Keys + {s}, FromSource(g, tables[s := table], v)) ==
      Sum(tables.Keys, FromSource(g, tables, v)) + x
  {
    hide Sum, Dependency;
    SumInsert(tables.Keys, FromSource(g, tables[s := table], v), s);
    SumCong(tables.Keys, FromSource(g, tables, v), FromSource(g, tables[s := table], v));
  }

  /** The centrality table holds the contributions of the sources that have a table. */
  ghost predicate SumsUpTo(g: Graph, tables: map<NodeId, map<NodeId, nat>>, centrality: map<NodeId, real>) {
    && centrality.Keys == g.nodes.Keys
    && (forall s :: s in tables ==> HopTable(g, s, tables[s]))
    && (forall v :: v in centrality ==> centrality[v] == Sum(tables.Keys, FromSource(g, tables, v)))
  }

  lemma SumsStart(g: Graph, centrality: map<NodeId, real>)
    requires centrality == map v | v in g.nodes :: 0.0
    ensures SumsUpTo(g, map[], centrality)
  {
    var tables: map<NodeId, map<NodeId, nat>> := map[];
    assert tables.Keys == {};
  }

  lemma SumsNext(g: Graph, tables: map<NodeId, map<NodeId, nat>>, centrality: map<NodeId, real>, source: NodeId,
                 table: map<NodeId, nat>, partials: map<NodeId, real>, merged: map<NodeId, real>)
    requires SumsUpTo(g, tables, centrality) && source !in tables && HopTable(g, source, table)
    requires partials.Keys == merged.Keys == g.nodes.Keys
    requires forall v :: v in partials ==>
      partials[v] == if v in table && v != source then Dependency(g, source, table, v) else 0.0
    requires forall v :: v in merged ==> v in centrality && merged[v] == centrality[v] + partials[v]
    ensures SumsUpTo(g, tables[source := table], merged)
  {
    hide HopTable, Dependency, Sum, FromSource;
    var tables' := tables[source := table];
    assert tables'.Keys == tables.Keys + {source};
    forall v | v in merged ensures merged[v] == Sum(tables'.Keys, FromSource(g, tables', v)) {
      AddSource(g, tables, source, table, v, partials[v]);
    }
  }

  /** The partial results of all sources, merged. */
  method AllSources(g: Graph) returns (centrality: map<NodeId, real>, ghost tables: map<NodeId, map<NodeId, nat>>)
    requires WellFormed(g)
    ensures tables.Keys == g.nodes.Keys && SumsUpTo(g, tables, centrality)
  {
    hide *;
    centrality := map v | v in g.nodes :: 0.0;
    tables := map[];
    SumsStart(g, centrality);
    var todo := g.nodes.Keys;
    while todo != {}
      invariant todo <= g.nodes.Keys && centrality.Keys == g.nodes.Keys && tables.Keys == g.nodes.Keys - todo
      invariant SumsUpTo(g, tables, centrality)
    {
      var source :| source in todo;
      var partials;
      ghost var table;
      partials, table := BrandesSingle(g, source);
      var merged := Merge(centrality, partials);
      SumsNext(g, tables, centrality, source, table, partials, merged);
      centrality, tables, todo := merged, tables[source := table], todo - {source};
    }
  }

  lemma PositiveProduct(a: real, b: real)
    requires a > 0.0 && b > 0.0
    ensures a * b > 0.0
  {
  }

  /** The normalisation for a directed graph: one over the number of ordered pairs of other nodes. */
  ghost function Norm(n: nat): real {
    if n > 2 then
      PositiveProduct(n as real - 1.0, n as real - 2.0);
      1.0 / ((n as real - 1.0) * (n as real - 2.0))
    else 1.0
  }

  /** The betweenness of every node: the dependencies over all sources, normalised. */
  method BetweennessCentrality(g: Graph)
    returns (centrality: map<NodeId, real>, ghost tables: map<NodeId, map<NodeId, nat>>)
    requires WellFormed(g)
    ensures centrality.Keys == g.nodes.Keys
    ensures tables.Keys == g.nodes.Keys
    ensures forall s :: s in tables ==> HopTable(g, s, tables[s])
    ensures forall v :: v in centrality ==>
      centrality[v] == Times(Sum(g.nodes.Keys, FromSource(g, tables, v)), Norm(|g.nodes|))
    // it is between 0 and 1, and 1 exactly for a node on all shortest walks between all other nodes
    ensures forall v :: v in centrality ==> 0.0 <= centrality[v] <= 1.0
    ensures |g.nodes| > 2 ==> forall v :: v in centrality ==> (centrality[v] == 1.0 <==> Hub(g, v))
    ensures |g.nodes| <= 2 ==> forall v :: v in centrality ==> centrality[v] == 0.0
  {
    hide *;
    centrality, tables := AllSources(g);
    SumsUpToParts(g, tables, centrality);
    centrality := Normalise(centrality, |g.nodes|);
    forall v | v in centrality
      ensures 0.0 <= centrality[v] <= 1.0 && (|g.nodes| > 2 ==> (centrality[v] == 1.0 <==> Hub(g, v)))
      ensures |g.nodes| <= 2 ==> centrality[v] == 0.0
    {
      CentralityBounds(g, tables, v);
    }
  }

  lemma SumsUpToParts(g: Graph, tables: map<NodeId, map<NodeId, nat>>, centrality: map<NodeId, real>)
    requires SumsUpTo(g, tables, centrality)
    ensures centrality.Keys == g.nodes.Keys && (forall s :: s in tables ==> HopTable(g, s, tables[s]))
    ensures forall v :: v in centrality ==> centrality[v] == Sum(tables.Keys, FromSource(g, tables, v))
  {
    hide HopTable, FromSource;
  }

  lemma CentralityBounds(g: Graph, tables: map<NodeId, map<NodeId, nat>>, v: NodeId)
    requires WellFormed(g) && tables.Keys == g.nodes.Keys && v in g.nodes
    requires forall s :: s in tables ==> HopTable(g, s, tables[s])
    ensures var c := Times(Sum(g.nodes.Keys, FromSource(g, tables, v)), Norm(|g.nodes|));
      && 0.0 <= c <= 1.0
      && (|g.nodes| > 2 ==> (c == 1.0 <==> Hub(g, v)))
      && (|g.nodes| <= 2 ==> c == 0.0)
  {
    hide *;
    var from := FromSource(g, tables, v);
    forall s | s in g.nodes && s != v
      ensures 0.0 <= from(s) <= |g.nodes| as real - 2.0
      ensures from(s) == |g.nodes| as real - 2.0 <==> FullSource(g, s, v)
    {
      TableInside(g, s, tables[s]);
      SourceBound(g, s, tables[s], v);
      FromSourceValue(g, tables, v, s);
      FullSourceMeans(g, s, v);
    }
    FromSourceValue(g, tables, v, v);
    BoundFromSources(g, from, v);
  }

  /** v is on all shortest walks from s. */
  ghost predicate FullSource(g: Graph, s: NodeId, v: NodeId) {
    forall t :: t in g.nodes && t != s && t != v ==> Unavoidable(g, s, t, v)
  }

  lemma FullSourceMeans(g: Graph, s: NodeId, v: NodeId)
    ensures FullSource(g, s, v) <==> forall t :: t in g.nodes && t != s && t != v ==> Unavoidable(g, s, t, v)
  {
    hide Unavoidable;
  }

  lemma BoundFromSources(g: Graph, from: nat -> real, v: NodeId)
    requires v in g.nodes && from(v) == 0.0
    requires forall s :: s in g.nodes && s != v ==>
      0.0 <= from(s) <= |g.nodes| as real - 2.0 && (from(s) == |g.nodes| as real - 2.0 <==> FullSource(g, s, v))
    ensures var c := Times(Sum(g.nodes.Keys, from), Norm(|g.nodes|));
      && 0.0 <= c <= 1.0
      && (|g.nodes| > 2 ==> (c == 1.0 <==> Hub(g, v)))
      && (|g.nodes| <= 2 ==> c == 0.0)
  {
    hide *;
    TotalBound(g, from, v);
    HubBySource(g, v);
    if |g.nodes| > 2 {
      ScaleNorm(Sum(g.nodes.Keys, from), |g.nodes|);
    } else {
      SmallGraph(g, from, v, |g.nodes| as real);
    }
  }

  lemma ScaleNorm(sum: real, n: nat)
    requires n > 2 && 0.0 <= sum <= Times(n as real - 2.0, n as real - 1.0)
    ensures 0.0 <= Times(sum, Norm(n)) <= 1.0
    ensures Times(sum, Norm(n)) == 1.0 <==> sum == Times(n as real - 2.0, n as real - 1.0)
  {
    NormValue(n);
    hide Norm, Times;
    ScaledToOne(sum, n as real - 2.0, n as real - 1.0, Norm(n));
  }

  lemma SmallGraph(g: Graph, from: nat -> real, v: NodeId, n: real)
    requires n == |g.nodes| as real && n <= 2.0 && v in g.nodes && from(v) == 0.0
    requires forall s :: s in g.nodes && s != v ==> 0.0 <= from(s) <= n - 2.0
    ensures Times(Sum(g.nodes.Keys, from), Norm(|g.nodes|)) == 0.0
  {
    SumZero(g.nodes.Keys, from);
    hide Sum;
  }

  lemma TableInside(g: Graph, s: NodeId, dist: map<NodeId, nat>)
    requires WellFormed(g) && s in g.nodes && HopTable(g, s, dist)
    ensures dist.Keys <= g.nodes.Keys
  {
    forall v | v in dist ensures v in g.nodes {
      ReachLive(g, s, v);
    }
  }

  lemma FromSourceValue(g: Graph, tables: map<NodeId, map<NodeId, nat>>, v: NodeId, s: NodeId)
    requires s in tables
    ensures FromSource(g, tables, v)(s) == if v in tables[s] && v != s then Dependency(g, s, tables[s], v) else 0.0
  {
    hide Dependency;
  }

  lemma HubBySource(g: Graph, v: NodeId)
    ensures Hub(g, v) <==> forall s :: s in g.nodes && s != v ==> FullSource(g, s, v)
  {
    hide Unavoidable;
  }

  lemma NormValue(n: nat)
    requires n > 2
    ensures Norm(n) * ((n as real - 1.0) * (n as real - 2.0)) == 1.0
  {
    PositiveProduct(n as real - 1.0, n as real - 2.0);
  }

  method Normalise(centrality: map<NodeId, real>, size: nat) returns (r: map<NodeId, real>)
    ensures r.Keys == centrality.Keys
    ensures forall v :: v in r ==> r[v] == Times(centrality[v], Norm(size))
  {
    var n := size as real;
    if n > 2.0 {
      PositiveProduct(n - 1.0, n - 2.0);
      var norm := 1.0 / ((n - 1.0) * (n - 2.0));
      assert norm == Norm(size);
      hide Norm;
      r := map v | v in centrality :: centrality[v] * norm;
    } else {
      r := centrality;
    }
  }
}
