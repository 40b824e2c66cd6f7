/** What the betweenness of a node can be, and when it is largest. */
module Betweenness {
  import opened Multigraph
  import opened Hops
  import opened Sums
  import opened ShortestWalks
  import opened Dependencies

  /** t can be reached from s, and every walk with the fewest edges passes through v. */
  ghost predicate Unavoidable(g: Graph, s: NodeId, t: NodeId, v: NodeId) {
    && Reach(g, s, t)
    && forall es :: IsWalk(g, s, es, t) && HopDistance(g, s, t, |es|) ==> v in NodeSeq(g, s, es)
  }

  /** v is on all shortest walks between all other nodes. */
  ghost predicate Hub(g: Graph, v: NodeId) {
    forall s, t :: s in g.nodes && t in g.nodes && s != t && s != v && t != v ==> Unavoidable(g, s, t, v)
  }

  // --------------------------------------------------------------------- one pair

  lemma SubsetSize<T>(a: set<T>, b: set<T>)
    requires a <= b
    ensures |a| <= |b| && (|a| == |b| <==> a == b)
  {
    assert b == a + (b - a);
    if |a| == |b| {
      assert |b - a| == 0;
    }
  }

  lemma AllThrough(g: Graph, s: NodeId, dist: map<NodeId, nat>, t: NodeId, v: NodeId)
    requires HopTable(g, s, dist) && t in dist
    ensures Through(g, s, dist[t], t, v) == Walks(g, s, dist[t], t) <==> Unavoidable(g, s, t, v)
  {
    var k := dist[t];
    assert HopDistance(g, s, t, k) && Reach(g, s, t);
    if Through(g, s, k, t, v) == Walks(g, s, k, t) {
      forall es | IsWalk(g, s, es, t) && HopDistance(g, s, t, |es|) ensures v in NodeSeq(g, s, es) {
        HopDistanceUnique(g, s, t, |es|, k);
        WalksExactly(g, s, k, t, es);
      }
    } else {
      var es :| es in Walks(g, s, k, t) && v !in NodeSeq(g, s, es);
      WalksExactly(g, s, k, t, es);
    }
  }

  lemma RatioAtMostOne(a: real, b: real)
    requires 0.0 <= a <= b && b > 0.0
    ensures 0.0 <= Ratio(a, b) <= 1.0 && (Ratio(a, b) == 1.0 <==> a == b)
  {
  }

  /** A pair counts for at most one, and for one exactly when v cannot be avoided. */
  lemma PairBounds(g: Graph, s: NodeId, dist: map<NodeId, nat>, v: NodeId, t: NodeId)
    requires HopTable(g, s, dist) && v != s
    ensures 0.0 <= PairDependency(g, s, dist, v)(t) <= 1.0
    ensures t == v || t == s || t !in dist ==> PairDependency(g, s, dist, v)(t) == 0.0
    ensures t != v && t != s ==> (PairDependency(g, s, dist, v)(t) == 1.0 <==> Unavoidable(g, s, t, v))
  {
    if t in dist && t != v {
      var k := dist[t];
      SubsetSize(Through(g, s, k, t, v), Walks(g, s, k, t));
      AllThrough(g, s, dist, t, v);
      SigmaPositive(g, s, dist, t);
      RatioAtMostOne(|Through(g, s, k, t, v)| as real, Sigma(g, s, dist, t));
      if t == s {
        NothingBetween(g, s, dist, v);
      }
    }
    hide Through, Walks, Ratio;
  }

  lemma NothingBetween(g: Graph, s: NodeId, dist: map<NodeId, nat>, v: NodeId)
    requires HopTable(g, s, dist) && v != s && s in dist
    ensures Through(g, s, dist[s], s, v) == {} && Ratio(0.0, Sigma(g, s, dist, s)) == 0.0
  {
    var none: seq<EdgeId> := [];
    assert IsWalk(g, s, none, s);
    assert HopDistance(g, s, s, dist[s]);
    assert dist[s] <= |none|;
    assert NodeSeq(g, s, none) == [s];
  }

  // ------------------------------------------------------------------- one source

  /** A source adds at most the number of other nodes, and exactly that many when v cannot be avoided. */
  lemma SourceBound(g: Graph, s: NodeId, dist: map<NodeId, nat>, v: NodeId)
    requires WellFormed(g) && HopTable(g, s, dist) && dist.Keys <= g.nodes.Keys
    requires s in g.nodes && v in g.nodes && v != s
    ensures 0.0 <= Dependency(g, s, dist, v) <= |g.nodes| as real - 2.0
    ensures Dependency(g, s, dist, v) == |g.nodes| as real - 2.0 <==>
      forall t :: t in g.nodes && t != s && t != v ==> Unavoidable(g, s, t, v)
    ensures v !in dist ==> Dependency(g, s, dist, v) == 0.0
  {
    hide *;
    var f, others := PairDependency(g, s, dist, v), g.nodes.Keys - {s, v};
    forall t ensures 0.0 <= f(t) <= 1.0 && (t == v || t == s || t !in dist ==> f(t) == 0.0)
      ensures t != v && t != s ==> (f(t) == 1.0 <==> Unavoidable(g, s, t, v))
    {
      PairBounds(g, s, dist, v, t);
    }
    DependencyIsPairs(g, s, dist, v);
    SumSupport(dist.Keys, g.nodes.Keys, f);
    SumSupport(others, g.nodes.Keys, f);
    SumAtMost(others, f, 1.0);
    OthersSize(g, s, v);
    OneTimes(|others| as real);
    if v !in dist {
      Unreached(g, s, dist, v);
    }
  }

  lemma DependencyIsPairs(g: Graph, s: NodeId, dist: map<NodeId, nat>, v: NodeId)
    ensures Dependency(g, s, dist, v) == Sum(dist.Keys, PairDependency(g, s, dist, v))
  {
  }

  lemma OneTimes(x: real)
    ensures Times(1.0, x) == x
  {
  }

  lemma OthersSize(g: Graph, s: NodeId, v: NodeId)
    requires s in g.nodes && v in g.nodes && s != v
    ensures |g.nodes.Keys - {s, v}| as real == |g.nodes| as real - 2.0
  {
    assert g.nodes.Keys == g.nodes.Keys - {s, v} + {s, v};
    assert |g.nodes| == |g.nodes.Keys|;
  }

  /** Walks do not pass through what cannot be reached. */
  lemma Unreached(g: Graph, s: NodeId, dist: map<NodeId, nat>, v: NodeId)
    requires HopTable(g, s, dist) && v !in dist
    ensures Dependency(g, s, dist, v) == 0.0
  {
    hide *;
    forall t | t in dist.Keys ensures PairDependency(g, s, dist, v)(t) == 0.0 {
      NoneThrough(g, s, dist, t, v);
      NoShare(g, s, dist, t, v);
    }
    DependencyIsPairs(g, s, dist, v);
    SumZero(dist.Keys, PairDependency(g, s, dist, v));
  }

  lemma NoShare(g: Graph, s: NodeId, dist: map<NodeId, nat>, t: NodeId, v: NodeId)
    requires t in dist && Through(g, s, dist[t], t, v) == {}
    ensures PairDependency(g, s, dist, v)(t) == 0.0
  {
    hide Through, Sigma;
  }

  lemma NoneThrough(g: Graph, s: NodeId, dist: map<NodeId, nat>, t: NodeId, v: NodeId)
    requires HopTable(g, s, dist) && t in dist && v !in dist
    ensures Through(g, s, dist[t], t, v) == {}
  {
    forall es | es in Through(g, s, dist[t], t, v) ensures false {
      WalksExactly(g, s, dist[t], t, es);
      var i := NodeSeqSplit(g, s, es, t, v);
      assert Reach(g, s, v);
    }
  }

  // ------------------------------------------------------------------ all sources

  /** All sources together: at most one for each ordered pair of other nodes. */
  lemma TotalBound(g: Graph, from: nat -> real, v: NodeId)
    requires v in g.nodes && from(v) == 0.0
    requires forall s :: s in g.nodes && s != v ==> 0.0 <= from(s) <= |g.nodes| as real - 2.0
    ensures 0.0 <= Sum(g.nodes.Keys, from) <= Times(|g.nodes| as real - 2.0, |g.nodes| as real - 1.0)
    ensures Sum(g.nodes.Keys, from) == Times(|g.nodes| as real - 2.0, |g.nodes| as real - 1.0) <==>
      forall s :: s in g.nodes && s != v ==> from(s) == |g.nodes| as real - 2.0
  {
    hide Sum, Times;
    var others := g.nodes.Keys - {v};
    SumSupport(others, g.nodes.Keys, from);
    SumAtMost(others, from, |g.nodes| as real - 2.0);
    assert |others| == |g.nodes| - 1 by {
      assert g.nodes.Keys == others + {v};
      assert |g.nodes| == |g.nodes.Keys|;
    }
  }

  /** Dividing by the number of ordered pairs of other nodes brings the largest value to one. */
  lemma ScaledToOne(sum: real, a: real, b: real, norm: real)
    requires a > 0.0 && b > 0.0 && 0.0 <= sum <= Times(a, b) && norm * (b * a) == 1.0
    ensures 0.0 <= Times(sum, norm) <= 1.0 && (Times(sum, norm) == 1.0 <==> sum == Times(a, b))
  {
    assert b * a > 0.0;
    var m := b * a;
    assert norm > 0.0;
    assert Times(a, b) == m;
    assert norm * m == 1.0;
    assert (m - sum) * norm >= 0.0;
  }
}
