/**
  The quantity betweenness centrality is made of: how large a share of the
  shortest walks from s to t passes through v. It is defined by counting walks,
  shown to obey the recurrence that Brandes' algorithm evaluates backwards over
  the levels, and summed in closed form.
 */
module Dependencies {
  import opened Multigraph
  import opened Hops
  import opened Sums
  import opened ShortestWalks

  /** The shortest walks from s to t that pass through v. */
  ghost function Through(g: Graph, s: NodeId, k: nat, t: NodeId, v: NodeId): set<seq<EdgeId>> {
    set es | es in Walks(g, s, k, t) && v in NodeSeq(g, s, es)
  }

  /** The share of the shortest walks from s to t that pass through v on the way. */
  ghost function PairDependency(g: Graph, s: NodeId, dist: map<NodeId, nat>, v: NodeId): nat -> real {
    (t: nat) => if t in dist && t != v then Ratio(|Through(g, s, dist[t], t, v)| as real, Sigma(g, s, dist, t)) else 0.0
  }

  ghost function Dependency(g: Graph, s: NodeId, dist: map<NodeId, nat>, v: NodeId): real {
    Sum(dist.Keys, PairDependency(g, s, dist, v))
  }

  // ------------------------------------------- walks through v split at v

  lemma {:induction false} NodeSeqSplit(g: Graph, u: NodeId, es: seq<EdgeId>, v: NodeId, x: NodeId) returns (i: nat)
    requires IsWalk(g, u, es, v) && x in NodeSeq(g, u, es)
    ensures i <= |es| && IsWalk(g, u, es[..i], x) && IsWalk(g, x, es[i..], v)
    decreases |es|
  {
    if es == [] {
      i := 0;
    } else {
      var n := |es| - 1;
      if x == v {
        i := |es|;
        assert es[..i] == es && es[i..] == [];
      } else {
        var e := es[n];
        i := NodeSeqSplit(g, u, es[..n], g.edges[e].from, x);
        WalkSnoc(g, x, es[..n][i..], e);
        assert es[..n][..i] == es[..i] && es[..n][i..] + [e] == es[i..];
      }
    }
  }

  lemma {:induction false} NodeSeqJoin(g: Graph, u: NodeId, a: seq<EdgeId>, x: NodeId, b: seq<EdgeId>, v: NodeId)
    requires IsWalk(g, u, a, x) && IsWalk(g, x, b, v)
    ensures IsWalk(g, u, a + b, v) && x in NodeSeq(g, u, a + b)
    decreases |b|
  {
    if b == [] {
      assert a + b == a;
      EndInNodeSeq(g, u, a, x);
    } else {
      var n := |b| - 1;
      NodeSeqJoin(g, u, a, x, b[..n], g.edges[b[n]].from);
      WalkSnoc(g, u, a + b[..n], b[n]);
      assert (a + b)[..|a + b| - 1] == a + b[..n] && a + b == a + b[..n] + [b[n]];
    }
  }

  lemma EndInNodeSeq(g: Graph, u: NodeId, es: seq<EdgeId>, v: NodeId)
    requires IsWalk(g, u, es, v)
    ensures v in NodeSeq(g, u, es)
  {
  }

  ghost function Joins(a: set<seq<EdgeId>>, b: set<seq<EdgeId>>): set<seq<EdgeId>> {
    set x, y | x in a && y in b :: x + y
  }

  lemma JoinsSplit(a: set<seq<EdgeId>>, b: set<seq<EdgeId>>, n: nat, x: seq<EdgeId>)
    requires x in a && forall y :: y in a ==> |y| == n
    ensures |Joins(a, b)| == |Joins({x}, b)| + |Joins(a - {x}, b)|
  {
    var own, rest := Joins({x}, b), Joins(a - {x}, b);
    forall x', y, y' | x' in a - {x} && y in b && y' in b ensures x' + y != x + y' {
      assert (x' + y)[..n] == x' && (x + y')[..n] == x;
    }
    assert own !! rest;
    assert Joins(a, b) == own + rest;
  }

  lemma OneMore(x: nat, y: nat)
    requires x > 0
    ensures x * y == y + (x - 1) * y
  {
  }

  lemma {:induction false} JoinsCount(a: set<seq<EdgeId>>, b: set<seq<EdgeId>>, n: nat)
    requires forall x :: x in a ==> |x| == n
    ensures |Joins(a, b)| == |a| * |b|
    decreases a
  {
    if a == {} {
      assert Joins(a, b) == {};
    } else {
      var x :| x in a;
      JoinsSplit(a, b, n, x);
      JoinsCount(a - {x}, b, n);
      PrefixImage(x, b, Joins({x}, b));
      hide Joins;
      assert |a - {x}| == |a| - 1;
      OneMore(|a|, |b|);
    }
  }

  lemma {:induction false} PrefixImage(x: seq<EdgeId>, b: set<seq<EdgeId>>, image: set<seq<EdgeId>>)
    requires image == Joins({x}, b)
    ensures |image| == |b|
    decreases b
  {
    if b == {} {
      assert image == {};
    } else {
      var y :| y in b;
      PrefixImage(x, b - {y}, Joins({x}, b - {y}));
      forall z | z in b - {y} ensures x + z != x + y {
        assert (x + z)[|x|..] == z && (x + y)[|x|..] == y;
      }
      assert image == Joins({x}, b - {y}) + {x + y};
    }
  }

  /** A shortest walk visits v, if at all, after exactly dist[v] edges. */
  lemma VisitPosition(g: Graph, s: NodeId, dist: map<NodeId, nat>, v: NodeId, t: NodeId, es: seq<EdgeId>)
    requires HopTable(g, s, dist) && v in dist && t in dist
    requires es in Through(g, s, dist[t], t, v)
    ensures dist[v] <= dist[t] == |es| && IsWalk(g, s, es[..dist[v]], v) && IsWalk(g, v, es[dist[v]..], t)
  {
    hide HopTable;
    WalksExactly(g, s, dist[t], t, es);
    var i := NodeSeqSplit(g, s, es, t, v);
    var b := ShortestTo(g, s, dist, v);
    WalkConcat(g, s, b, v, es[i..], t);
    NotShorter(g, s, dist, t, b + es[i..]);
    NotShorter(g, s, dist, v, es[..i]);
  }

  lemma ThroughSplits(g: Graph, s: NodeId, dist: map<NodeId, nat>, v: NodeId, t: NodeId, es: seq<EdgeId>)
    requires HopTable(g, s, dist) && v in dist && t in dist && dist[v] <= dist[t]
    requires es in Through(g, s, dist[t], t, v)
    ensures es in Joins(Walks(g, s, dist[v], v), Walks(g, v, dist[t] - dist[v], t))
  {
    VisitPosition(g, s, dist, v, t, es);
    hide HopTable, Through, IsWalk, Walks;
    WalksExactly(g, s, dist[v], v, es[..dist[v]]);
    WalksExactly(g, v, dist[t] - dist[v], t, es[dist[v]..]);
    assert es == es[..dist[v]] + es[dist[v]..];
  }

  lemma JoinIsThrough(g: Graph, s: NodeId, j: nat, k: nat, v: NodeId, t: NodeId, x: seq<EdgeId>, y: seq<EdgeId>)
    requires x in Walks(g, s, j, v) && y in Walks(g, v, k, t)
    ensures x + y in Through(g, s, j + k, t, v)
  {
    hide Walks, IsWalk;
    WalksExactly(g, s, j, v, x);
    WalksExactly(g, v, k, t, y);
    NodeSeqJoin(g, s, x, v, y, t);
    WalksExactly(g, s, j + k, t, x + y);
  }

  lemma ThroughIsJoins(g: Graph, s: NodeId, dist: map<NodeId, nat>, v: NodeId, t: NodeId)
    requires HopTable(g, s, dist) && v in dist && t in dist && dist[v] <= dist[t]
    ensures Through(g, s, dist[t], t, v) == Joins(Walks(g, s, dist[v], v), Walks(g, v, dist[t] - dist[v], t))
  {
    hide HopTable, Through, Walks;
    var a, b := Walks(g, s, dist[v], v), Walks(g, v, dist[t] - dist[v], t);
    forall es | es in Through(g, s, dist[t], t, v) ensures es in Joins(a, b) {
      ThroughSplits(g, s, dist, v, t, es);
    }
    forall x, y | x in a && y in b ensures x + y in Through(g, s, dist[t], t, v) {
      JoinIsThrough(g, s, dist[v], dist[t] - dist[v], v, t, x, y);
    }
  }

  /** Counting the shortest walks through v as (walks to v) times (walks on from v). */
  ghost function Product(g: Graph, s: NodeId, dist: map<NodeId, nat>, v: NodeId, t: NodeId): real {
    if v in dist && t in dist && dist[v] < dist[t] then
      Times(Sigma(g, s, dist, v), Count(g, v, dist[t] - dist[v], t))
    else 0.0
  }

  lemma ThroughCount(g: Graph, s: NodeId, dist: map<NodeId, nat>, v: NodeId, t: NodeId)
    requires HopTable(g, s, dist) && v in dist && t in dist && v != t
    ensures |Through(g, s, dist[t], t, v)| as real == Product(g, s, dist, v, t)
  {
    if dist[v] < dist[t] {
      ThroughIsJoins(g, s, dist, v, t);
      var a, b := Walks(g, s, dist[v], v), Walks(g, v, dist[t] - dist[v], t);
      forall x | x in a ensures |x| == dist[v] {
        WalksExactly(g, s, dist[v], v, x);
      }
      JoinsCount(a, b, dist[v]);
      ProductOfReals(|a|, |b|);
    } else {
      if Through(g, s, dist[t], t, v) != {} {
        var es :| es in Through(g, s, dist[t], t, v);
        VisitPosition(g, s, dist, v, t, es);
        assert false;
      }
    }
  }

  lemma ProductOfReals(x: nat, y: nat)
    ensures (x * y) as real == Times(x as real, y as real)
  {
  }

  // ------------------------------------------------------------- the recurrence

  /** What the level edge e hands back to its source. */
  ghost function Share(g: Graph, s: NodeId, dist: map<NodeId, nat>): nat -> real {
    (e: nat) =>
      if e in g.edges
      then Times(Ratio(Sigma(g, s, dist, g.edges[e].from), Sigma(g, s, dist, g.edges[e].to)),
                 1.0 + Dependency(g, s, dist, g.edges[e].to))
      else 0.0
  }

  /** The part of Share(e) that is due to the target t. */
  ghost function ShareOf(g: Graph, s: NodeId, dist: map<NodeId, nat>, v: NodeId): (nat, nat) -> real {
    (e: nat, t: nat) =>
      if e in g.edges && v in dist && t in dist && dist[v] < dist[t]
      then Ratio(Times(Sigma(g, s, dist, v), Count(g, g.edges[e].to, dist[t] - dist[v] - 1, t)), Sigma(g, s, dist, t))
      else 0.0
  }

  lemma SigmaPositive(g: Graph, s: NodeId, dist: map<NodeId, nat>, v: NodeId)
    requires HopTable(g, s, dist) && v in dist
    ensures Sigma(g, s, dist, v) >= 1.0
  {
    assert HopDistance(g, s, v, dist[v]);
    WalkCounts(g, s, dist[v], v);
  }

  lemma Cancel(a: real, w: real, c: real, t: real)
    requires w > 0.0 && t > 0.0
    ensures Ratio(Times(a, c), t) == Times(Ratio(a, w), Ratio(Times(w, c), t))
  {
    assert a / w * w == a;
    assert (a * c) / t == (a / w) * ((w * c) / t) by {
      assert (w * c) / t * t == w * c;
      assert ((a / w) * ((w * c) / t)) * t == (a / w) * (w * c);
      assert (a / w) * (w * c) == a * c;
    }
  }

  ghost function Own(w: NodeId, c: real): nat -> real {
    (t: nat) => if t == w then c else 0.0
  }

  ghost function Scaled(c: real, f: nat -> real): nat -> real {
    (t: nat) => Times(c, f(t))
  }

  /** The target w of e = (v, w) itself. */
  lemma ShareOfHead(g: Graph, s: NodeId, dist: map<NodeId, nat>, v: NodeId, e: EdgeId)
    requires e in DagOut(g, dist, v)
    ensures var w := g.edges[e].to;
            ShareOf(g, s, dist, v)(e, w) == Ratio(Sigma(g, s, dist, v), Sigma(g, s, dist, w))
  {
    CountZero(g, g.edges[e].to, g.edges[e].to);
    hide Count, Sigma;
  }

  /** A further target t: the dependency of w on t, scaled. */
  lemma ShareOfOther(g: Graph, s: NodeId, dist: map<NodeId, nat>, v: NodeId, e: EdgeId, t: NodeId)
    requires HopTable(g, s, dist) && e in DagOut(g, dist, v) && t in dist && t != g.edges[e].to
    ensures var w := g.edges[e].to;
            var c := Ratio(Sigma(g, s, dist, v), Sigma(g, s, dist, w));
            ShareOf(g, s, dist, v)(e, t) == Times(c, PairDependency(g, s, dist, w)(t))
  {
    hide HopTable, Count, Sigma, Through, Times, Ratio;
    var w := g.edges[e].to;
    var c := Ratio(Sigma(g, s, dist, v), Sigma(g, s, dist, w));
    SigmaPositive(g, s, dist, w);
    SigmaPositive(g, s, dist, t);
    ThroughCount(g, s, dist, w, t);
    if dist[w] < dist[t] {
      Cancel(Sigma(g, s, dist, v), Sigma(g, s, dist, w), Count(g, w, dist[t] - dist[w], t), Sigma(g, s, dist, t));
    } else {
      CountZero(g, w, t);
      ZeroShare(c, Sigma(g, s, dist, v), Sigma(g, s, dist, t));
    }
  }

  lemma ZeroShare(c: real, a: real, t: real)
    requires t > 0.0
    ensures Times(c, Ratio(0.0, t)) == 0.0 && Ratio(Times(a, 0.0), t) == 0.0
  {
    assert 0.0 / t == 0.0 && a * 0.0 == 0.0 && c * 0.0 == 0.0;
  }

  /** One target's part of what e = (v, w) hands back: the scaled dependency of w, plus w itself. */
  lemma ShareOfTarget(g: Graph, s: NodeId, dist: map<NodeId, nat>, v: NodeId, e: EdgeId, t: NodeId)
    requires HopTable(g, s, dist) && e in DagOut(g, dist, v) && t in dist
    ensures var w := g.edges[e].to;
            var c := Ratio(Sigma(g, s, dist, v), Sigma(g, s, dist, w));
            ShareOf(g, s, dist, v)(e, t) == Own(w, c)(t) + Scaled(c, PairDependency(g, s, dist, w))(t)
  {
    hide HopTable, Sigma, Ratio, ShareOf, Through;
    if t == g.edges[e].to {
      ShareOfHead(g, s, dist, v, e);
    } else {
      ShareOfOther(g, s, dist, v, e, t);
    }
  }

  lemma OwnPlusScaled(keys: set<nat>, w: NodeId, c: real, dep: nat -> real, row: nat -> real)
    requires w in keys && forall t :: t in keys ==> row(t) == Own(w, c)(t) + Scaled(c, dep)(t)
    ensures Sum(keys, row) == Times(c, 1.0 + Sum(keys, dep))
  {
    assert Times(c, 1.0) == c;
    hide Times, Sum;
    Distribute(c, 1.0, Sum(keys, dep));
    OwnSum(keys, w, c);
    SumScale(keys, c, dep, Scaled(c, dep));
    SumAdd(keys, Own(w, c), Scaled(c, dep), row);
  }

  lemma ShareIsSum(g: Graph, s: NodeId, dist: map<NodeId, nat>, v: NodeId, e: EdgeId)
    requires HopTable(g, s, dist) && e in DagOut(g, dist, v)
    ensures Share(g, s, dist)(e) == Sum(dist.Keys, Row(ShareOf(g, s, dist, v), e))
  {
    hide HopTable, Sigma, Ratio, ShareOf, Through, Sum, PairDependency, Times, Own, Scaled;
    var w := g.edges[e].to;
    var c := Ratio(Sigma(g, s, dist, v), Sigma(g, s, dist, w));
    forall t | t in dist.Keys
      ensures Row(ShareOf(g, s, dist, v), e)(t) == Own(w, c)(t) + Scaled(c, PairDependency(g, s, dist, w))(t)
    {
      ShareOfTarget(g, s, dist, v, e, t);
    }
    OwnPlusScaled(dist.Keys, w, c, PairDependency(g, s, dist, w), Row(ShareOf(g, s, dist, v), e));
  }

  lemma OwnSum(keys: set<nat>, w: NodeId, c: real)
    requires w in keys
    ensures Sum(keys, Own(w, c)) == c
  {
    SumPick(keys, Own(w, c), w);
    SumZero(keys - {w}, Own(w, c));
  }

  /** Edges that do not lead one level down carry no shortest walk. */
  lemma OffLevelOut(g: Graph, s: NodeId, dist: map<NodeId, nat>, v: NodeId, e: EdgeId, t: NodeId)
    requires HopTable(g, s, dist) && v in dist && t in dist && dist[v] < dist[t]
    requires e in Out(g, v) && e !in DagOut(g, dist, v)
    ensures Count(g, g.edges[e].to, dist[t] - dist[v] - 1, t) == 0.0
  {
    hide HopTable;
    var w := g.edges[e].to;
    var k := dist[t] - dist[v] - 1;
    if HopWalk(g, w, k, t) {
      var a := ShortestTo(g, s, dist, v);
      WalkSnoc(g, s, a, e);
      NotShorter(g, s, dist, w, a + [e]);
      var b := ShortestTo(g, s, dist, w);
      var c :| IsWalk(g, w, c, t) && |c| == k;
      WalkConcat(g, s, b, w, c, t);
      NotShorter(g, s, dist, t, b + c);
      assert false;
    }
    NoWalkNoCount(g, w, k, t);
  }

  lemma ColumnAbove(g: Graph, s: NodeId, dist: map<NodeId, nat>, v: NodeId, t: NodeId)
    requires HopTable(g, s, dist) && v in dist && t in dist && dist[v] < dist[t]
    ensures PairDependency(g, s, dist, v)(t) == Sum(DagOut(g, dist, v), Column(ShareOf(g, s, dist, v), t))
  {
    hide HopTable, Sigma, Through, Count, Ratio, Times, Sum, FirstTerm;
    var k := dist[t] - dist[v] - 1;
    ThroughCount(g, s, dist, v, t);
    SigmaPositive(g, s, dist, t);
    LevelEdgesSuffice(g, s, dist, v, t);
    ScaleRatio(DagOut(g, dist, v), Sigma(g, s, dist, v), Sigma(g, s, dist, t), FirstTerm(g, k, t),
               Column(ShareOf(g, s, dist, v), t));
  }

  lemma ColumnBelow(g: Graph, s: NodeId, dist: map<NodeId, nat>, v: NodeId, t: NodeId)
    requires HopTable(g, s, dist) && v in dist && t in dist && dist[t] <= dist[v]
    ensures PairDependency(g, s, dist, v)(t) == Sum(DagOut(g, dist, v), Column(ShareOf(g, s, dist, v), t))
  {
    hide HopTable, Sigma, Through, Count, Sum;
    SumZero(DagOut(g, dist, v), Column(ShareOf(g, s, dist, v), t));
    if t != v {
      ThroughCount(g, s, dist, v, t);
    }
  }

  lemma ColumnIsPair(g: Graph, s: NodeId, dist: map<NodeId, nat>, v: NodeId, t: NodeId)
    requires HopTable(g, s, dist) && v in dist && t in dist
    ensures PairDependency(g, s, dist, v)(t) == Sum(DagOut(g, dist, v), Column(ShareOf(g, s, dist, v), t))
  {
    hide *;
    if dist[v] < dist[t] {
      ColumnAbove(g, s, dist, v, t);
    } else {
      ColumnBelow(g, s, dist, v, t);
    }
  }

  lemma LevelEdgesSuffice(g: Graph, s: NodeId, dist: map<NodeId, nat>, v: NodeId, t: NodeId)
    requires HopTable(g, s, dist) && v in dist && t in dist && dist[v] < dist[t]
    ensures Count(g, v, dist[t] - dist[v], t) == Sum(DagOut(g, dist, v), FirstTerm(g, dist[t] - dist[v] - 1, t))
    ensures forall e :: e in DagOut(g, dist, v) ==>
      FirstTerm(g, dist[t] - dist[v] - 1, t)(e) == Count(g, g.edges[e].to, dist[t] - dist[v] - 1, t)
  {
    hide HopTable, Count;
    var k := dist[t] - dist[v] - 1;
    CountFirst(g, v, k, t);
    forall e | e in Out(g, v) - DagOut(g, dist, v) ensures FirstTerm(g, k, t)(e) == 0.0 {
      OffLevelOut(g, s, dist, v, e, t);
    }
    SumSupport(DagOut(g, dist, v), Out(g, v), FirstTerm(g, k, t));
  }

  lemma {:induction false} ScaleRatio(es: set<nat>, a: real, b: real, f: nat -> real, h: nat -> real)
    requires b > 0.0 && forall e :: e in es ==> h(e) == Ratio(Times(a, f(e)), b)
    ensures Sum(es, h) == Ratio(Times(a, Sum(es, f)), b)
    decreases es
  {
    if es == {} {
      assert Times(a, 0.0) == 0.0;
    } else {
      var e :| e in es;
      SumPick(es, f, e);
      SumPick(es, h, e);
      ScaleRatio(es - {e}, a, b, f, h);
      RatioDistributes(a, b, f(e), Sum(es - {e}, f));
    }
  }

  lemma RatioDistributes(a: real, b: real, x: real, y: real)
    requires b > 0.0
    ensures Ratio(Times(a, x + y), b) == Ratio(Times(a, x), b) + Ratio(Times(a, y), b)
  {
    assert a * (x + y) == a * x + a * y;
  }

  /** Brandes' recurrence: what v depends on is handed back by its level edges. */
  lemma DependencyRecurrence(g: Graph, s: NodeId, dist: map<NodeId, nat>, v: NodeId)
    requires HopTable(g, s, dist) && v in dist
    ensures Dependency(g, s, dist, v) == Sum(DagOut(g, dist, v), Share(g, s, dist))
  {
    hide *;
    forall e | e in DagOut(g, dist, v) ensures Share(g, s, dist)(e) == Sum(dist.Keys, Row(ShareOf(g, s, dist, v), e)) {
      ShareIsSum(g, s, dist, v, e);
    }
    forall t | t in dist.Keys
      ensures PairDependency(g, s, dist, v)(t) == Sum(DagOut(g, dist, v), Column(ShareOf(g, s, dist, v), t))
    {
      ColumnIsPair(g, s, dist, v, t);
    }
    SumSwap(DagOut(g, dist, v), dist.Keys, ShareOf(g, s, dist, v), Share(g, s, dist), PairDependency(g, s, dist, v));
    DependencyIsSum(g, s, dist, v);
  }

  lemma DependencyIsSum(g: Graph, s: NodeId, dist: map<NodeId, nat>, v: NodeId)
    ensures Dependency(g, s, dist, v) == Sum(dist.Keys, PairDependency(g, s, dist, v))
  {
  }

  // ---------------------------------------------------------- the total in closed form

  ghost function DependencyOf(g: Graph, s: NodeId, dist: map<NodeId, nat>): nat -> real {
    (v: nat) => Dependency(g, s, dist, v)
  }

  /** The number of nodes strictly between s and t on a shortest walk. */
  ghost function Interior(dist: map<NodeId, nat>): nat -> real {
    (t: nat) => if t in dist then dist[t] as real - 1.0 else 0.0
  }

  ghost function Depth(dist: map<NodeId, nat>, v: NodeId): real {
    if v in dist then dist[v] as real else 0.0
  }

  /** Each level edge's share, weighted by the depth of its source. */
  ghost function DeepShare(g: Graph, s: NodeId, dist: map<NodeId, nat>): nat -> real {
    (e: nat) => if e in g.edges then Times(Depth(dist, g.edges[e].from), Share(g, s, dist)(e)) else 0.0
  }

  ghost function DeepDependency(g: Graph, s: NodeId, dist: map<NodeId, nat>): nat -> real {
    (v: nat) => Times(Depth(dist, v), Dependency(g, s, dist, v))
  }

  /** What the level edges into w carry, weighted: everything w passes on, one level up. */
  ghost function PassedOn(g: Graph, s: NodeId, dist: map<NodeId, nat>): nat -> real {
    (w: nat) => if w == s then 0.0 else Times(Depth(dist, w) - 1.0, 1.0 + Dependency(g, s, dist, w))
  }

  ghost function LevelEdges(g: Graph, dist: map<NodeId, nat>): set<EdgeId> {
    set e | e in g.edges && e in DagIn(g, dist, g.edges[e].to)
  }

  lemma LevelFibres(g: Graph, dist: map<NodeId, nat>, v: NodeId)
    ensures Fibre(LevelEdges(g, dist), FromOf(g), v) == DagOut(g, dist, v)
    ensures Fibre(LevelEdges(g, dist), ToOf(g), v) == DagIn(g, dist, v)
    ensures forall e :: e in LevelEdges(g, dist) ==> FromOf(g)(e) in dist && ToOf(g)(e) in dist
  {
  }

  lemma DeepOut(g: Graph, s: NodeId, dist: map<NodeId, nat>, v: NodeId)
    requires HopTable(g, s, dist) && v in dist
    ensures DeepDependency(g, s, dist)(v) == Sum(DagOut(g, dist, v), DeepShare(g, s, dist))
  {
    DependencyRecurrence(g, s, dist, v);
    hide HopTable, Share, Dependency, Times, Sum;
    SumScale(DagOut(g, dist, v), Depth(dist, v), Share(g, s, dist), DeepShare(g, s, dist));
  }

  ghost function Fractions(g: Graph, s: NodeId, dist: map<NodeId, nat>, w: NodeId): nat -> real {
    (e: nat) => if e in g.edges then Ratio(Sigma(g, s, dist, g.edges[e].from), Sigma(g, s, dist, w)) else 0.0
  }

  /** The shortest walks into w arrive over its level edges: the fractions add up to one. */
  lemma FractionsAddUp(g: Graph, s: NodeId, dist: map<NodeId, nat>, w: NodeId)
    requires HopTable(g, s, dist) && w in dist && w != s
    ensures Sum(DagIn(g, dist, w), Fractions(g, s, dist, w)) == 1.0
  {
    hide HopTable, Sigma, Sum, Ratio, Times;
    SigmaPositive(g, s, dist, w);
    SigmaLevels(g, s, dist, w);
    forall e | e in DagIn(g, dist, w)
      ensures Fractions(g, s, dist, w)(e) == Ratio(Times(1.0, SigmaFrom(g, s, dist)(e)), Sigma(g, s, dist, w))
    {
      TimesOne(SigmaFrom(g, s, dist)(e));
    }
    ScaleRatio(DagIn(g, dist, w), 1.0, Sigma(g, s, dist, w), SigmaFrom(g, s, dist), Fractions(g, s, dist, w));
    TimesOne(Sigma(g, s, dist, w));
    RatioSelf(Sigma(g, s, dist, w));
  }

  lemma TimesOne(x: real)
    ensures Times(1.0, x) == x && Times(x, 1.0) == x
  {
  }

  lemma RatioSelf(x: real)
    requires x > 0.0
    ensures Ratio(x, x) == 1.0
  {
  }

  lemma SigmaLevels(g: Graph, s: NodeId, dist: map<NodeId, nat>, w: NodeId)
    requires HopTable(g, s, dist) && w in dist && w != s
    ensures dist[w] > 0 && Sigma(g, s, dist, w) == Sum(DagIn(g, dist, w), SigmaFrom(g, s, dist))
  {
    var es := ShortestTo(g, s, dist, w);
    assert dist[w] > 0;
    forall e | e in In(g, w) && HopWalk(g, s, dist[w] - 1, g.edges[e].from) ensures g.edges[e].from in dist {
      var pre :| IsWalk(g, s, pre, g.edges[e].from) && |pre| == dist[w] - 1;
      NotShorter(g, s, dist, g.edges[e].from, pre);
    }
    hide Reach, HopDistance, HopWalk, Sigma;
    SigmaIn(g, s, dist, w);
  }

  lemma DeepIn(g: Graph, s: NodeId, dist: map<NodeId, nat>, w: NodeId)
    requires HopTable(g, s, dist) && w in dist
    ensures PassedOn(g, s, dist)(w) == Sum(DagIn(g, dist, w), DeepShare(g, s, dist))
  {
    hide HopTable, Sigma, Sum, DeepShare, Fractions, Times, Dependency, DagIn;
    if w == s {
      NoLevelEdgesIntoSource(g, s, dist);
      SumZero(DagIn(g, dist, w), DeepShare(g, s, dist));
    } else {
      var c := Times(Depth(dist, w) - 1.0, 1.0 + Dependency(g, s, dist, w));
      FractionsAddUp(g, s, dist, w);
      TimesOne(c);
      forall e | e in DagIn(g, dist, w) ensures DeepShare(g, s, dist)(e) == Times(c, Fractions(g, s, dist, w)(e)) {
        DeepShareIn(g, s, dist, w, e);
      }
      SumScale(DagIn(g, dist, w), c, Fractions(g, s, dist, w), DeepShare(g, s, dist));
    }
  }

  lemma NoLevelEdgesIntoSource(g: Graph, s: NodeId, dist: map<NodeId, nat>)
    requires HopTable(g, s, dist)
    ensures DagIn(g, dist, s) == {}
  {
    DepthOfSource(g, s, dist);
  }

  lemma DeepShareIn(g: Graph, s: NodeId, dist: map<NodeId, nat>, w: NodeId, e: EdgeId)
    requires e in DagIn(g, dist, w)
    ensures DeepShare(g, s, dist)(e) ==
            Times(Times(Depth(dist, w) - 1.0, 1.0 + Dependency(g, s, dist, w)), Fractions(g, s, dist, w)(e))
  {
    hide Sigma, Dependency, Ratio, Times;
    var f := Ratio(Sigma(g, s, dist, g.edges[e].from), Sigma(g, s, dist, w));
    assert dist[w] == dist[g.edges[e].from] + 1 && dist[w] as real == dist[g.edges[e].from] as real + 1.0;
    var share := Share(g, s, dist)(e);
    assert share == Times(f, 1.0 + Dependency(g, s, dist, w));
    assert DeepShare(g, s, dist)(e) == Times(Depth(dist, g.edges[e].from), share);
    assert Fractions(g, s, dist, w)(e) == f;
    TimesShuffle(Depth(dist, w) - 1.0, f, 1.0 + Dependency(g, s, dist, w));
  }

  lemma TimesShuffle(x: real, y: real, z: real)
    ensures Times(x, Times(y, z)) == Times(Times(x, z), y)
  {
  }

  lemma PassOnBalance(d: real, x: real)
    ensures Times(d, x) + (d - 1.0) == Times(d - 1.0, 1.0 + x) + x
  {
  }

  ghost function Plus(f: nat -> real, k: nat -> real): nat -> real {
    (x: nat) => f(x) + k(x)
  }

  /** The dependencies on s add up to the number of inner nodes of shortest walks, summed over all targets. */
  lemma TotalDependency(g: Graph, s: NodeId, dist: map<NodeId, nat>)
    requires HopTable(g, s, dist)
    ensures Sum(dist.Keys - {s}, DependencyOf(g, s, dist)) == Sum(dist.Keys - {s}, Interior(dist))
  {
    hide *;
    var keys := dist.Keys - {s};
    DeepTotals(g, s, dist);
    var deep, passed := DeepDependency(g, s, dist), PassedOn(g, s, dist);
    var dep, inner := DependencyOf(g, s, dist), Interior(dist);
    forall v | v in keys ensures Plus(deep, inner)(v) == passed(v) + dep(v) {
      Balance(g, s, dist, v);
    }
    PlusIsSum(keys, deep, inner);
    SumAdd(keys, passed, dep, Plus(deep, inner));
  }

  lemma Balance(g: Graph, s: NodeId, dist: map<NodeId, nat>, v: NodeId)
    requires v in dist && v != s
    ensures Plus(DeepDependency(g, s, dist), Interior(dist))(v) == PassedOn(g, s, dist)(v) + DependencyOf(g, s, dist)(v)
  {
    hide Times, Dependency;
    PassOnBalance(Depth(dist, v), Dependency(g, s, dist, v));
  }

  lemma PlusIsSum(keys: set<nat>, f: nat -> real, k: nat -> real)
    ensures Sum(keys, Plus(f, k)) == Sum(keys, f) + Sum(keys, k)
  {
    SumAdd(keys, f, k, Plus(f, k));
  }

  /** Depth-weighted dependencies, counted at the sources and at the targets of the level edges. */
  lemma DeepTotals(g: Graph, s: NodeId, dist: map<NodeId, nat>)
    requires HopTable(g, s, dist)
    ensures Sum(dist.Keys - {s}, DeepDependency(g, s, dist)) == Sum(dist.Keys - {s}, PassedOn(g, s, dist))
  {
    DepthOfSource(g, s, dist);
    hide *;
    var edges := LevelEdges(g, dist);
    forall v ensures Fibre(edges, FromOf(g), v) == DagOut(g, dist, v) && Fibre(edges, ToOf(g), v) == DagIn(g, dist, v) {
      LevelFibres(g, dist, v);
    }
    LevelFibres(g, dist, s);
    forall v | v in dist.Keys
      ensures DeepDependency(g, s, dist)(v) == Sum(Fibre(edges, FromOf(g), v), DeepShare(g, s, dist))
    {
      DeepOut(g, s, dist, v);
    }
    forall w | w in dist.Keys ensures PassedOn(g, s, dist)(w) == Sum(Fibre(edges, ToOf(g), w), DeepShare(g, s, dist)) {
      DeepIn(g, s, dist, w);
    }
    SumFibre(edges, dist.Keys, FromOf(g), DeepShare(g, s, dist), DeepDependency(g, s, dist));
    SumFibre(edges, dist.Keys, ToOf(g), DeepShare(g, s, dist), PassedOn(g, s, dist));
    SumPick(dist.Keys, DeepDependency(g, s, dist), s);
    SumPick(dist.Keys, PassedOn(g, s, dist), s);
  }

  lemma DepthOfSource(g: Graph, s: NodeId, dist: map<NodeId, nat>)
    requires HopTable(g, s, dist)
    ensures s in dist.Keys && dist[s] == 0
    ensures DeepDependency(g, s, dist)(s) == 0.0 && PassedOn(g, s, dist)(s) == 0.0
  {
    assert IsWalk(g, s, [], s);
    NotShorter(g, s, dist, s, []);
    hide Dependency;
    assert Times(0.0, Dependency(g, s, dist, s)) == 0.0;
  }
}
