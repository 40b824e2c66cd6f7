/**
  Counting walks, and the predecessor lists that a breadth-first search collects:
  one entry per edge that leads one level down.
 */
module ShortestWalks {
  import opened Collections
  import opened Multigraph
  import opened Hops
  import opened Sums

  // ------------------------------------------------------------- counting walks

  /** All walks of exactly k edges from s to v. */
  ghost function Walks(g: Graph, s: NodeId, k: nat, v: NodeId): set<seq<EdgeId>>
    decreases k
  {
    if k == 0 then (if v == s then {[]} else {})
    else set e, es | e in In(g, v) && es in Walks(g, s, k - 1, g.edges[e].from) :: es + [e]
  }

  lemma {:induction false} WalksExactly(g: Graph, s: NodeId, k: nat, v: NodeId, es: seq<EdgeId>)
    ensures es in Walks(g, s, k, v) <==> IsWalk(g, s, es, v) && |es| == k
    decreases k
  {
    if k > 0 {
      if es != [] {
        var n := |es| - 1;
        assert es == es[..n] + [es[n]];
        if es[n] in g.edges {
          WalksExactly(g, s, k - 1, g.edges[es[n]].from, es[..n]);
        }
      }
      if es in Walks(g, s, k, v) {
        var e, pre :| e in In(g, v) && pre in Walks(g, s, k - 1, g.edges[e].from) && es == pre + [e];
        assert es[..|es| - 1] == pre && es[|es| - 1] == e;
      }
    }
  }

  ghost function Count(g: Graph, s: NodeId, k: nat, v: NodeId): real {
    |Walks(g, s, k, v)| as real
  }

  ghost function ViaLast(g: Graph, s: NodeId, k: nat, last: set<EdgeId>): set<seq<EdgeId>>
    requires last <= g.edges.Keys
  {
    set e, es | e in last && es in Walks(g, s, k, g.edges[e].from) :: es + [e]
  }

  /** Terms of the last-edge decomposition. */
  ghost function LastTerm(g: Graph, s: NodeId, k: nat): nat -> real {
    (e: nat) => if e in g.edges then Count(g, s, k, g.edges[e].from) else 0.0
  }

  ghost function FirstTerm(g: Graph, k: nat, v: NodeId): nat -> real {
    (e: nat) => if e in g.edges then Count(g, g.edges[e].to, k, v) else 0.0
  }

  lemma {:induction false} AppendImage(w: set<seq<EdgeId>>, e: EdgeId, image: set<seq<EdgeId>>)
    requires image == set es | es in w :: es + [e]
    ensures |image| == |w|
    decreases w
  {
    if w != {} {
      var x :| x in w;
      var rest := set es | es in w - {x} :: es + [e];
      AppendImage(w - {x}, e, rest);
      forall y | y in w - {x} ensures y + [e] != x + [e] {
        assert (y + [e])[..|y|] == y && (x + [e])[..|x|] == x;
      }
      assert image == rest + {x + [e]};
    } else {
      assert image == {};
    }
  }

  lemma {:induction false} ViaLastCount(g: Graph, s: NodeId, k: nat, last: set<EdgeId>)
    requires last <= g.edges.Keys
    ensures |ViaLast(g, s, k, last)| as real == Sum(last, LastTerm(g, s, k))
    decreases last
  {
    if last == {} {
      assert ViaLast(g, s, k, last) == {};
    } else {
      var e :| e in last;
      ViaLastCount(g, s, k, last - {e});
      var own := set es | es in Walks(g, s, k, g.edges[e].from) :: es + [e];
      AppendImage(Walks(g, s, k, g.edges[e].from), e, own);
      SplitLast(g, s, k, last, e, own);
      SumPick(last, LastTerm(g, s, k), e);
      assert LastTerm(g, s, k)(e) == |own| as real;
    }
  }

  lemma SplitLast(g: Graph, s: NodeId, k: nat, last: set<EdgeId>, e: EdgeId, own: set<seq<EdgeId>>)
    requires last <= g.edges.Keys && e in last
    requires own == set es | es in Walks(g, s, k, g.edges[e].from) :: es + [e]
    ensures |ViaLast(g, s, k, last)| == |own| + |ViaLast(g, s, k, last - {e})|
  {
    var rest := ViaLast(g, s, k, last - {e});
    forall x | x in rest ensures x !in own {
      var e', es :| e' in last - {e} && es in Walks(g, s, k, g.edges[e'].from) && x == es + [e'];
      assert x[|x| - 1] == e';
    }
    forall x ensures x in ViaLast(g, s, k, last) <==> x in own + rest {
      if x in ViaLast(g, s, k, last) {
        var e', es :| e' in last && es in Walks(g, s, k, g.edges[e'].from) && x == es + [e'];
        if e' == e { assert x in own; } else { assert x in rest; }
      }
    }
    assert ViaLast(g, s, k, last) == own + rest;
  }

  lemma CountLast(g: Graph, s: NodeId, k: nat, v: NodeId)
    ensures Count(g, s, k + 1, v) == Sum(In(g, v), LastTerm(g, s, k))
  {
    ViaLastCount(g, s, k, In(g, v));
    assert Walks(g, s, k + 1, v) == ViaLast(g, s, k, In(g, v));
  }

  lemma CountZero(g: Graph, s: NodeId, v: NodeId)
    ensures Count(g, s, 0, v) == if s == v then 1.0 else 0.0
  {
    var trivial: set<seq<EdgeId>> := {[]};
    assert |trivial| == 1;
  }

  lemma CountFirstBase(g: Graph, u: NodeId, v: NodeId)
    ensures Count(g, u, 1, v) == Sum(Out(g, u), FirstTerm(g, 0, v))
  {
    CountLast(g, u, 0, v);
    var both := In(g, v) * Out(g, u);
    forall e | e in g.edges
      ensures LastTerm(g, u, 0)(e) == (if e in Out(g, u) then 1.0 else 0.0)
      ensures FirstTerm(g, 0, v)(e) == (if e in In(g, v) then 1.0 else 0.0)
    {
      CountZero(g, u, g.edges[e].from);
      CountZero(g, g.edges[e].to, v);
    }
    SumSupport(both, In(g, v), LastTerm(g, u, 0));
    SumSupport(both, Out(g, u), FirstTerm(g, 0, v));
    SumCong(both, LastTerm(g, u, 0), FirstTerm(g, 0, v));
  }

  /** Walks between the head of a first edge and the tail of a last edge. */
  ghost function Middle(g: Graph, k: nat): (nat, nat) -> real {
    (l: nat, e: nat) =>
      if l in g.edges && e in g.edges then Count(g, g.edges[e].to, k, g.edges[l].from) else 0.0
  }

  lemma MiddleColumn(g: Graph, k: nat, u: NodeId, v: NodeId, e: EdgeId)
    requires e in Out(g, u)
    ensures FirstTerm(g, k + 1, v)(e) == Sum(In(g, v), Column(Middle(g, k), e))
  {
    CountLast(g, g.edges[e].to, k, v);
    hide Count;
    SumCong(In(g, v), LastTerm(g, g.edges[e].to, k), Column(Middle(g, k), e));
  }

  /** Walks can be counted by their first edge as well. */
  lemma {:induction false} CountFirst(g: Graph, u: NodeId, k: nat, v: NodeId)
    ensures Count(g, u, k + 1, v) == Sum(Out(g, u), FirstTerm(g, k, v))
    decreases k, 1
  {
    hide *;
    if k == 0 {
      CountFirstBase(g, u, v);
    } else {
      CountLast(g, u, k, v);
      forall l | l in In(g, v) ensures LastTerm(g, u, k)(l) == Sum(Out(g, u), Row(Middle(g, k - 1), l)) {
        CountFirstRow(g, u, k, v, l);
      }
      forall e | e in Out(g, u) ensures FirstTerm(g, k, v)(e) == Sum(In(g, v), Column(Middle(g, k - 1), e)) {
        MiddleColumn(g, k - 1, u, v, e);
      }
      SumSwap(In(g, v), Out(g, u), Middle(g, k - 1), LastTerm(g, u, k), FirstTerm(g, k, v));
    }
  }

  lemma {:induction false} CountFirstRow(g: Graph, u: NodeId, k: nat, v: NodeId, l: EdgeId)
    requires k > 0 && l in In(g, v)
    ensures LastTerm(g, u, k)(l) == Sum(Out(g, u), Row(Middle(g, k - 1), l))
    decreases k, 0
  {
    CountFirst(g, u, k - 1, g.edges[l].from);
    hide Count, Sum;
    SumCong(Out(g, u), FirstTerm(g, k - 1, g.edges[l].from), Row(Middle(g, k - 1), l));
  }

  lemma NoWalkNoCount(g: Graph, s: NodeId, k: nat, v: NodeId)
    requires !HopWalk(g, s, k, v)
    ensures Count(g, s, k, v) == 0.0
  {
    if Walks(g, s, k, v) != {} {
      var es :| es in Walks(g, s, k, v);
      WalksExactly(g, s, k, v, es);
      assert false;
    }
  }

  lemma WalkCounts(g: Graph, s: NodeId, k: nat, v: NodeId)
    requires HopWalk(g, s, k, v)
    ensures Count(g, s, k, v) >= 1.0
  {
    var es :| IsWalk(g, s, es, v) && |es| == k;
    WalksExactly(g, s, k, v, es);
    assert Walks(g, s, k, v) != {};
  }

  // -------------------------------------------------------- shortest-path counts

  /** dist is the table of hop distances from s. */
  ghost predicate HopTable(g: Graph, s: NodeId, dist: map<NodeId, nat>) {
    && (forall v :: v in dist <==> Reach(g, s, v))
    && (forall v :: v in dist ==> HopDistance(g, s, v, dist[v]))
  }

  lemma ShortestTo(g: Graph, s: NodeId, dist: map<NodeId, nat>, v: NodeId) returns (es: seq<EdgeId>)
    requires HopTable(g, s, dist) && v in dist
    ensures IsWalk(g, s, es, v) && |es| == dist[v]
  {
    hide Reach;
    assert HopDistance(g, s, v, dist[v]);
    assert HopWalk(g, s, dist[v], v);
    es :| IsWalk(g, s, es, v) && |es| == dist[v];
  }

  lemma NotShorter(g: Graph, s: NodeId, dist: map<NodeId, nat>, v: NodeId, es: seq<EdgeId>)
    requires HopTable(g, s, dist) && IsWalk(g, s, es, v)
    ensures v in dist && dist[v] <= |es|
  {
    assert Reach(g, s, v);
    hide Reach;
    assert HopDistance(g, s, v, dist[v]);
  }

  /** The number of shortest walks from s to v. */
  ghost function Sigma(g: Graph, s: NodeId, dist: map<NodeId, nat>, v: NodeId): real {
    if v in dist then Count(g, s, dist[v], v) else 0.0
  }

  ghost function SigmaFrom(g: Graph, s: NodeId, dist: map<NodeId, nat>): nat -> real {
    (e: nat) => if e in g.edges then Sigma(g, s, dist, g.edges[e].from) else 0.0
  }

  /** The edges into v that come from one level up. */
  ghost function DagIn(g: Graph, dist: map<NodeId, nat>, v: NodeId): set<EdgeId> {
    set e | e in In(g, v) && v in dist && g.edges[e].from in dist && dist[g.edges[e].from] + 1 == dist[v]
  }

  ghost function DagOut(g: Graph, dist: map<NodeId, nat>, v: NodeId): set<EdgeId> {
    set e | e in Out(g, v) && v in dist && g.edges[e].to in dist && dist[v] + 1 == dist[g.edges[e].to]
  }

  /** Shortest walks to v extend shortest walks to the sources of its level edges. */
  lemma SigmaIn(g: Graph, s: NodeId, dist: map<NodeId, nat>, v: NodeId)
    requires forall x :: x in dist ==> HopDistance(g, s, x, dist[x])
    requires v in dist && v != s && dist[v] > 0
    requires forall e :: e in In(g, v) && HopWalk(g, s, dist[v] - 1, g.edges[e].from) ==> g.edges[e].from in dist
    ensures Sigma(g, s, dist, v) == Sum(DagIn(g, dist, v), SigmaFrom(g, s, dist))
  {
    var k := dist[v] - 1;
    CountLast(g, s, k, v);
    forall e | e in In(g, v) - DagIn(g, dist, v) ensures LastTerm(g, s, k)(e) == 0.0 {
      OffLevelEdge(g, s, dist, v, e);
      NoWalkNoCount(g, s, k, g.edges[e].from);
    }
    SumSupport(DagIn(g, dist, v), In(g, v), LastTerm(g, s, k));
    SumCong(DagIn(g, dist, v), LastTerm(g, s, k), SigmaFrom(g, s, dist));
  }

  lemma OffLevelEdge(g: Graph, s: NodeId, dist: map<NodeId, nat>, v: NodeId, e: EdgeId)
    requires forall x :: x in dist ==> HopDistance(g, s, x, dist[x])
    requires v in dist && dist[v] > 0 && e in In(g, v) && e !in DagIn(g, dist, v)
    requires HopWalk(g, s, dist[v] - 1, g.edges[e].from) ==> g.edges[e].from in dist
    ensures !HopWalk(g, s, dist[v] - 1, g.edges[e].from)
  {
    var u := g.edges[e].from;
    if HopWalk(g, s, dist[v] - 1, u) {
      assert HopDistance(g, s, u, dist[u]) && HopDistance(g, s, v, dist[v]);
      var a :| IsWalk(g, s, a, u) && |a| == dist[v] - 1;
      var b :| IsWalk(g, s, b, u) && |b| == dist[u];
      WalkSnoc(g, s, b, e);
      assert false;
    }
  }

  // ---------------------------------------------------------- predecessor lists

  /** preds[v] lists the source of every edge seen so far that enters v from one level up; `entered` names those
      edges. */
  ghost predicate PredsOf(g: Graph, dist: map<NodeId, nat>, queue: seq<NodeId>, todo: set<EdgeId>,
                          v: NodeId, preds: seq<NodeId>, entered: seq<EdgeId>) {
    && |preds| == |entered| && NoDup(entered)
    && (forall i :: 0 <= i < |entered| ==> entered[i] in g.edges && g.edges[entered[i]].from == preds[i])
    && (forall e :: e in entered <==>
          && Seen(g, dist, queue, todo, e) && g.edges[e].to == v && v in dist && dist[g.edges[e].from] + 1 == dist[v])
  }

  ghost predicate PredsAgree(g: Graph, dist: map<NodeId, nat>, queue: seq<NodeId>, todo: set<EdgeId>,
                             preds: map<NodeId, seq<NodeId>>, entered: map<NodeId, seq<EdgeId>>) {
    && preds.Keys == entered.Keys
    && forall v :: v in preds ==> PredsOf(g, dist, queue, todo, v, preds[v], entered[v])
  }

  /** Between the two states exactly the edge e was looked at, and known distances stayed. */
  ghost predicate OneMoreEdge(g: Graph, dist: map<NodeId, nat>, queue: seq<NodeId>, todo: set<EdgeId>,
                              dist': map<NodeId, nat>, queue': seq<NodeId>, todo': set<EdgeId>, e: EdgeId) {
    && e in g.edges && !Seen(g, dist, queue, todo, e)
    && (forall x :: Seen(g, dist', queue', todo', x) <==> Seen(g, dist, queue, todo, x) || x == e)
    && dist.Keys <= dist'.Keys && (forall v :: v in dist ==> dist'[v] == dist[v])
    && Scanned(g, dist, queue, todo) && g.edges[e].from in dist
  }

  lemma PredsKept(g: Graph, dist: map<NodeId, nat>, queue: seq<NodeId>, todo: set<EdgeId>,
                  dist': map<NodeId, nat>, queue': seq<NodeId>, todo': set<EdgeId>, e: EdgeId,
                  v: NodeId, preds: seq<NodeId>, entered: seq<EdgeId>)
    requires OneMoreEdge(g, dist, queue, todo, dist', queue', todo', e)
    requires PredsOf(g, dist, queue, todo, v, preds, entered)
    requires g.edges[e].to == v && v in dist' ==> dist'[g.edges[e].from] + 1 != dist'[v]
    ensures PredsOf(g, dist', queue', todo', v, preds, entered)
  {
    forall x ensures x in entered <==>
        && Seen(g, dist', queue', todo', x) && g.edges[x].to == v && v in dist' &&
          dist'[g.edges[x].from] + 1 == dist'[v]
    {
      if Seen(g, dist, queue, todo, x) {
        assert g.edges[x].to in dist;
      }
    }
  }

  lemma PredsExtended(g: Graph, dist: map<NodeId, nat>, queue: seq<NodeId>, todo: set<EdgeId>,
                      dist': map<NodeId, nat>, queue': seq<NodeId>, todo': set<EdgeId>, e: EdgeId,
                      v: NodeId, preds: seq<NodeId>, entered: seq<EdgeId>)
    requires OneMoreEdge(g, dist, queue, todo, dist', queue', todo', e)
    requires PredsOf(g, dist, queue, todo, v, preds, entered)
    requires g.edges[e].to == v && v in dist' && dist'[g.edges[e].from] + 1 == dist'[v]
    ensures PredsOf(g, dist', queue', todo', v, preds + [g.edges[e].from], entered + [e])
  {
    var entered' := entered + [e];
    forall x ensures x in entered' <==>
        && Seen(g, dist', queue', todo', x) && g.edges[x].to == v && v in dist' &&
          dist'[g.edges[x].from] + 1 == dist'[v]
    {
      assert x in entered' <==> x in entered || x == e;
      if Seen(g, dist, queue, todo, x) {
        assert g.edges[x].to in dist;
      }
    }
  }

  /** A node whose whole upper level has left the queue has all its level edges listed. */
  lemma PredsComplete(g: Graph, dist: map<NodeId, nat>, queue: seq<NodeId>,
                      v: NodeId, preds: seq<NodeId>, entered: seq<EdgeId>)
    requires PredsOf(g, dist, queue, {}, v, preds, entered)
    requires v in dist && forall x :: x in queue && x in dist ==> dist[v] <= dist[x]
    ensures Elems(entered) == DagIn(g, dist, v)
  {
    forall e ensures e in entered <==> e in DagIn(g, dist, v) {
    }
  }

  /** Looking at a level edge appends its source to the target's list. */
  lemma PredsAppend(g: Graph, dist: map<NodeId, nat>, queue: seq<NodeId>, todo: set<EdgeId>,
                    dist': map<NodeId, nat>, queue': seq<NodeId>, todo': set<EdgeId>, e: EdgeId,
                    preds: map<NodeId, seq<NodeId>>, entered: map<NodeId, seq<EdgeId>>)
    requires OneMoreEdge(g, dist, queue, todo, dist', queue', todo', e)
    requires PredsAgree(g, dist, queue, todo, preds, entered)
    requires g.edges[e].to in preds && g.edges[e].to in dist' && dist'[g.edges[e].from] + 1 == dist'[g.edges[e].to]
    ensures var to := g.edges[e].to;
            PredsAgree(g, dist', queue', todo', preds[to := preds[to] + [g.edges[e].from]],
                       entered[to := entered[to] + [e]])
  {
    var to := g.edges[e].to;
    hide OneMoreEdge, PredsOf;
    var preds', entered' := preds[to := preds[to] + [g.edges[e].from]], entered[to := entered[to] + [e]];
    forall v | v in preds' ensures PredsOf(g, dist', queue', todo', v, preds'[v], entered'[v]) {
      if v == to {
        PredsExtended(g, dist, queue, todo, dist', queue', todo', e, v, preds[v], entered[v]);
      } else {
        PredsKept(g, dist, queue, todo, dist', queue', todo', e, v, preds[v], entered[v]);
      }
    }
  }

  lemma PredsSame(g: Graph, dist: map<NodeId, nat>, queue: seq<NodeId>, todo: set<EdgeId>,
                  dist': map<NodeId, nat>, queue': seq<NodeId>, todo': set<EdgeId>, e: EdgeId,
                  preds: map<NodeId, seq<NodeId>>, entered: map<NodeId, seq<EdgeId>>)
    requires OneMoreEdge(g, dist, queue, todo, dist', queue', todo', e)
    requires PredsAgree(g, dist, queue, todo, preds, entered)
    requires g.edges[e].to in dist' ==> dist'[g.edges[e].from] + 1 != dist'[g.edges[e].to]
    ensures PredsAgree(g, dist', queue', todo', preds, entered)
  {
    hide OneMoreEdge, PredsOf;
    forall v | v in preds ensures PredsOf(g, dist', queue', todo', v, preds[v], entered[v]) {
      PredsKept(g, dist, queue, todo, dist', queue', todo', e, v, preds[v], entered[v]);
    }
  }

  /** Popping the front node looks at no edge yet. */
  lemma PredsPop(g: Graph, dist: map<NodeId, nat>, queue: seq<NodeId>, queue': seq<NodeId>, todo': set<EdgeId>,
                 preds: map<NodeId, seq<NodeId>>, entered: map<NodeId, seq<EdgeId>>)
    requires PredsAgree(g, dist, queue, {}, preds, entered)
    requires forall e :: Seen(g, dist, queue', todo', e) <==> Seen(g, dist, queue, {}, e)
    ensures PredsAgree(g, dist, queue', todo', preds, entered)
  {
    hide Seen;
  }

  lemma DiscoverOneMore(g: Graph, s: NodeId, dist: map<NodeId, nat>, queue: seq<NodeId>, todo: set<EdgeId>, level: nat,
                        e: EdgeId)
    requires WellFormed(g) && Bfs(g, s, dist, queue, todo, level) && e in todo && e in g.edges
    requires g.edges[e].from in dist && g.edges[e].from !in queue && dist[g.edges[e].from] == level
    requires g.edges[e].to !in dist
    ensures Bfs(g, s, dist[g.edges[e].to := level + 1], queue + [g.edges[e].to], todo - {e}, level)
    ensures OneMoreEdge(g, dist, queue, todo, dist[g.edges[e].to := level + 1], queue + [g.edges[e].to], todo - {e}, e)
  {
    BfsDiscover(g, s, dist, queue, todo, level, e);
    hide Rooted, Wavefront;
  }

  lemma KnownOneMore(g: Graph, s: NodeId, dist: map<NodeId, nat>, queue: seq<NodeId>, todo: set<EdgeId>, level: nat,
                     e: EdgeId)
    requires Bfs(g, s, dist, queue, todo, level) && e in todo && e in g.edges
    requires g.edges[e].from in dist && g.edges[e].from !in queue && dist[g.edges[e].from] == level
    requires g.edges[e].to in dist
    ensures Bfs(g, s, dist, queue, todo - {e}, level)
    ensures OneMoreEdge(g, dist, queue, todo, dist, queue, todo - {e}, e)
  {
    BfsKnown(g, s, dist, queue, todo, level, e);
    hide Rooted, Wavefront;
  }
}
