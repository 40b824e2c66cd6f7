/**
  The directed multigraph that every backend stores and every algorithm walks:
  live nodes and live edges under their ids, parallel edges and self-loops
  allowed. An algorithm's view of "the edges leaving v" is `Out(g, v)`; the graph
  store proves that its adjacency sets are exactly these sets.
 */
module Multigraph {

  type NodeId = nat
  type EdgeId = nat

  datatype PropertyValue =
    | Null
    | Bool(b: bool)
    | Int(n: int)
    | Float(x: real)
    | String(s: string)
    | Date(days: int)
    | DateTime(millis: int)
    | Duration(months: int, durDays: int, durMillis: int)

  type Properties = map<string, PropertyValue>

  datatype Node = Node(id: NodeId, labels: seq<string>, properties: Properties)
  datatype Edge = Edge(id: EdgeId, edgeType: string, from: NodeId, to: NodeId, properties: Properties)
  datatype Graph = Graph(nodes: map<NodeId, Node>, edges: map<EdgeId, Edge>)

  /** Every record sits under its own id and no edge dangles. */
  ghost predicate WellFormed(g: Graph) {
    && (forall v :: v in g.nodes ==> g.nodes[v].id == v)
    && (forall e :: e in g.edges ==>
          g.edges[e].id == e && g.edges[e].from in g.nodes && g.edges[e].to in g.nodes)
  }

  function Out(g: Graph, v: NodeId): set<EdgeId> {
    set e | e in g.edges && g.edges[e].from == v
  }

  function In(g: Graph, v: NodeId): set<EdgeId> {
    set e | e in g.edges && g.edges[e].to == v
  }

  function FromOf(g: Graph): nat -> nat { (e: nat) => if e in g.edges then g.edges[e].from else 0 }

  function ToOf(g: Graph): nat -> nat { (e: nat) => if e in g.edges then g.edges[e].to else 0 }

  lemma OutEdge(g: Graph, v: NodeId, e: EdgeId)
    requires WellFormed(g) && e in Out(g, v)
    ensures e in g.edges && g.edges[e].from == v && g.edges[e].to in g.nodes
  {
  }

  // ------------------------------------------------------------------ walks

  /** `es` is a walk of edges from u to v; the empty walk goes from a node to itself. */
  ghost predicate IsWalk(g: Graph, u: NodeId, es: seq<EdgeId>, v: NodeId)
    decreases |es|
  {
    if es == [] then u == v
    else
      var e := es[|es| - 1];
      e in g.edges && g.edges[e].to == v && IsWalk(g, u, es[..|es| - 1], g.edges[e].from)
  }

  ghost predicate Reach(g: Graph, u: NodeId, v: NodeId) {
    exists es :: IsWalk(g, u, es, v)
  }

  ghost predicate Mutual(g: Graph, u: NodeId, v: NodeId) {
    Reach(g, u, v) && Reach(g, v, u)
  }

  lemma WalkSnoc(g: Graph, u: NodeId, es: seq<EdgeId>, e: EdgeId)
    requires e in g.edges && IsWalk(g, u, es, g.edges[e].from)
    ensures IsWalk(g, u, es + [e], g.edges[e].to)
  {
    assert (es + [e])[..|es|] == es;
  }

  lemma {:induction false} WalkConcat(g: Graph, u: NodeId, a: seq<EdgeId>, v: NodeId, b: seq<EdgeId>, w: NodeId)
    requires IsWalk(g, u, a, v) && IsWalk(g, v, b, w)
    ensures IsWalk(g, u, a + b, w)
    decreases |b|
  {
    if b == [] {
      assert a + b == a;
    } else {
      var e := b[|b| - 1];
      WalkConcat(g, u, a, v, b[..|b| - 1], g.edges[e].from);
      WalkSnoc(g, u, a + b[..|b| - 1], e);
      assert a + b == a + b[..|b| - 1] + [e];
    }
  }

  lemma ReachRefl(g: Graph, u: NodeId)
    ensures Reach(g, u, u)
  {
    assert IsWalk(g, u, [], u);
  }

  lemma ReachTrans(g: Graph, u: NodeId, v: NodeId, w: NodeId)
    requires Reach(g, u, v) && Reach(g, v, w)
    ensures Reach(g, u, w)
  {
    var a :| IsWalk(g, u, a, v);
    var b :| IsWalk(g, v, b, w);
    WalkConcat(g, u, a, v, b, w);
  }

  lemma EdgeWalk(g: Graph, e: EdgeId)
    requires e in g.edges
    ensures IsWalk(g, g.edges[e].from, [e], g.edges[e].to)
    ensures Reach(g, g.edges[e].from, g.edges[e].to)
  {
    WalkSnoc(g, g.edges[e].from, [], e);
    assert [] + [e] == [e];
    assert IsWalk(g, g.edges[e].from, [e], g.edges[e].to);
  }

  /** The first edge of a walk can be split off. */
  lemma {:induction false} WalkHead(g: Graph, u: NodeId, es: seq<EdgeId>, v: NodeId)
    requires IsWalk(g, u, es, v) && es != []
    ensures es[0] in g.edges && g.edges[es[0]].from == u
    ensures IsWalk(g, g.edges[es[0]].to, es[1..], v)
    decreases |es|
  {
    var e := es[|es| - 1];
    var pre := es[..|es| - 1];
    if pre == [] {
      assert es[1..] == [];
    } else {
      WalkHead(g, u, pre, g.edges[e].from);
      assert pre[1..] + [e] == es[1..];
      WalkSnoc(g, g.edges[es[0]].to, pre[1..], e);
    }
  }

  /** A walk that starts inside a set closed under successors stays inside. */
  lemma {:induction false} WalkStaysInside(g: Graph, inside: set<NodeId>, u: NodeId, es: seq<EdgeId>, v: NodeId)
    requires forall e :: e in g.edges && g.edges[e].from in inside ==> g.edges[e].to in inside
    requires u in inside && IsWalk(g, u, es, v)
    ensures v in inside
    decreases |es|
  {
    if es != [] {
      WalkStaysInside(g, inside, u, es[..|es| - 1], g.edges[es[|es| - 1]].from);
    }
  }

  /** A walk that ends inside a set closed under predecessors started inside. */
  lemma {:induction false} WalkCameFromInside(g: Graph, inside: set<NodeId>, u: NodeId, es: seq<EdgeId>, v: NodeId)
    requires forall e :: e in g.edges && g.edges[e].to in inside ==> g.edges[e].from in inside
    requires v in inside && IsWalk(g, u, es, v)
    ensures u in inside
    decreases |es|
  {
    if es != [] {
      WalkCameFromInside(g, inside, u, es[..|es| - 1], g.edges[es[|es| - 1]].from);
    }
  }

  lemma {:induction false} WalkEdgesExist(g: Graph, u: NodeId, es: seq<EdgeId>, v: NodeId)
    requires IsWalk(g, u, es, v)
    ensures forall e :: e in es ==> e in g.edges
    decreases |es|
  {
    if es != [] {
      var n := |es| - 1;
      WalkEdgesExist(g, u, es[..n], g.edges[es[n]].from);
      assert es == es[..n] + [es[n]];
    }
  }

  /** The nodes a walk visits, its start included. */
  ghost function NodeSeq(g: Graph, u: NodeId, es: seq<EdgeId>): seq<NodeId> {
    if es == [] then [u]
    else
      var e := es[|es| - 1];
      NodeSeq(g, u, es[..|es| - 1]) + (if e in g.edges then [g.edges[e].to] else [])
  }

  lemma {:induction false} NodeSeqHead(g: Graph, e: EdgeId, es: seq<EdgeId>, v: NodeId)
    requires e in g.edges && IsWalk(g, g.edges[e].to, es, v)
    ensures IsWalk(g, g.edges[e].from, [e] + es, v)
    ensures NodeSeq(g, g.edges[e].from, [e] + es) == [g.edges[e].from] + NodeSeq(g, g.edges[e].to, es)
    decreases |es|
  {
    var full := [e] + es;
    if es == [] {
      EdgeWalk(g, e);
      assert full == [e] && full[..0] == [];
      assert NodeSeq(g, g.edges[e].from, full) == NodeSeq(g, g.edges[e].from, []) + [g.edges[e].to];
    } else {
      var n := |es| - 1;
      NodeSeqHead(g, e, es[..n], g.edges[es[n]].from);
      assert full[..|full| - 1] == [e] + es[..n];
    }
  }

  lemma ReachLive(g: Graph, u: NodeId, v: NodeId)
    requires WellFormed(g) && u in g.nodes && Reach(g, u, v)
    ensures v in g.nodes
  {
    var es :| IsWalk(g, u, es, v);
    WalkStaysInside(g, g.nodes.Keys, u, es, v);
  }

  lemma MutualTrans(g: Graph, u: NodeId, v: NodeId, w: NodeId)
    requires Mutual(g, u, v) && Mutual(g, v, w)
    ensures Mutual(g, u, w)
  {
    ReachTrans(g, u, v, w);
    ReachTrans(g, w, v, u);
  }
}
