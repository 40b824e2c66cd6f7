/** Kosaraju's strongly connected components (two depth-first passes). */
module StrongComponents {
  import opened Collections
  import opened Multigraph

  // ------------------------------------------------- first pass: finish order

  /** A finished node that still reaches unfinished ground has a mutual partner that is unfinished. */
  ghost predicate UnfinishedPartner(g: Graph, finished: set<NodeId>) {
    forall u, v :: u in finished && v !in finished && Reach(g, u, v) ==>
      exists w :: w !in finished && Mutual(g, u, w)
  }

  /** Whoever reaches order[i] has a mutual partner that does not finish before order[i]. */
  ghost predicate FinishOrder(g: Graph, order: seq<NodeId>) {
    forall i, u :: 0 <= i < |order| && Reach(g, u, order[i]) ==>
      exists w :: w !in order[..i] && Mutual(g, u, w)
  }

  ghost predicate FirstPass(g: Graph, visited: set<NodeId>, order: seq<NodeId>) {
    && NoDup(order)
    && Elems(order) <= visited <= g.nodes.Keys
    && (forall e :: e in g.edges && g.edges[e].from in order ==> g.edges[e].to in visited)
    && UnfinishedPartner(g, Elems(order))
    && FinishOrder(g, order)
  }

  /** Leaving a set whose edges all stay in `visited` passes through visited-but-outside ground. */
  lemma {:induction false} WalkLeaves(g: Graph, inside: set<NodeId>, visited: set<NodeId>,
                                      u: NodeId, es: seq<EdgeId>, v: NodeId) returns (y: NodeId)
    requires forall e :: e in g.edges && g.edges[e].from in inside ==> g.edges[e].to in visited
    requires u in inside && v !in inside && IsWalk(g, u, es, v)
    ensures y in visited - inside && Reach(g, u, y)
    decreases |es|
  {
    var e := es[|es| - 1];
    var x := g.edges[e].from;
    if x in inside {
      y := v;
      assert IsWalk(g, u, es, v);
    } else {
      y := WalkLeaves(g, inside, visited, u, es[..|es| - 1], x);
    }
  }

  lemma FinishNode(g: Graph, visited: set<NodeId>, order: seq<NodeId>, node: NodeId)
    requires FirstPass(g, visited, order)
    requires node in visited && node !in order
    requires forall y :: y in visited - Elems(order) ==> Reach(g, y, node)
    requires forall e :: e in Out(g, node) ==> g.edges[e].to in visited
    ensures FirstPass(g, visited, order + [node])
  {
    var done := Elems(order);
    var order' := order + [node];
    assert Elems(order') == done + {node};
    forall e | e in g.edges && g.edges[e].from in order' ensures g.edges[e].to in visited {
      assert g.edges[e].from == node ==> e in Out(g, node);
    }
    forall u, v | u in Elems(order') && v !in Elems(order') && Reach(g, u, v)
      ensures exists w :: w !in Elems(order') && Mutual(g, u, w)
    {
      UnfinishedPartnerStep(g, visited, order, node, u, v);
    }
    forall i, u | 0 <= i < |order'| && Reach(g, u, order'[i])
      ensures exists w :: w !in order'[..i] && Mutual(g, u, w)
    {
      if i < |order| {
        assert order'[..i] == order[..i];
      } else {
        assert order'[..i] == order;
        if u in done {
          var w :| w !in done && Mutual(g, u, w);
        } else {
          ReachRefl(g, u);
        }
      }
    }
  }

  lemma UnfinishedPartnerStep(g: Graph, visited: set<NodeId>, order: seq<NodeId>, node: NodeId, u: NodeId, v: NodeId)
    requires FirstPass(g, visited, order)
    requires node in visited && node !in order
    requires forall y :: y in visited - Elems(order) ==> Reach(g, y, node)
    requires forall e :: e in Out(g, node) ==> g.edges[e].to in visited
    requires u in Elems(order) + {node} && v !in Elems(order) + {node} && Reach(g, u, v)
    ensures exists w :: w !in Elems(order) + {node} && Mutual(g, u, w)
  {
    var done := Elems(order);
    if u in done {
      var w :| w !in done && Mutual(g, u, w);
      if w == node {
        ReachTrans(g, node, u, v);
        var y := PartnerOfNode(g, visited, order, node, v);
        MutualTrans(g, u, node, y);
      }
    } else {
      var y := PartnerOfNode(g, visited, order, node, v);
    }
  }

  lemma PartnerOfNode(g: Graph, visited: set<NodeId>, order: seq<NodeId>, node: NodeId, v: NodeId) returns (y: NodeId)
    requires FirstPass(g, visited, order)
    requires forall y :: y in visited - Elems(order) ==> Reach(g, y, node)
    requires forall e :: e in Out(g, node) ==> g.edges[e].to in visited
    requires v !in Elems(order) + {node} && Reach(g, node, v)
    ensures y !in Elems(order) + {node} && Mutual(g, node, y)
  {
    var es :| IsWalk(g, node, es, v);
    forall e | e in g.edges && g.edges[e].from in Elems(order) + {node} ensures g.edges[e].to in visited {
      assert g.edges[e].from == node ==> e in Out(g, node);
    }
    y := WalkLeaves(g, Elems(order) + {node}, visited, node, es, v);
  }

  lemma VisitNode(g: Graph, visited: set<NodeId>, order: seq<NodeId>, node: NodeId)
    requires FirstPass(g, visited, order)
    requires node in g.nodes && node !in visited
    requires forall y :: y in visited - Elems(order) ==> Reach(g, y, node)
    ensures FirstPass(g, visited + {node}, order)
    ensures visited + {node} - Elems(order) == visited - Elems(order) + {node}
    ensures forall y :: y in visited - Elems(order) + {node} ==> Reach(g, y, node)
  {
    ReachRefl(g, node);
  }

  lemma ReachNeighbor(g: Graph, gray: set<NodeId>, e: EdgeId)
    requires e in g.edges && forall y :: y in gray ==> Reach(g, y, g.edges[e].from)
    ensures forall y :: y in gray ==> Reach(g, y, g.edges[e].to)
  {
    EdgeWalk(g, e);
    forall y | y in gray ensures Reach(g, y, g.edges[e].to) {
      ReachTrans(g, y, g.edges[e].from, g.edges[e].to);
    }
  }

  /** Recursive depth-first search that appends each node when it is left. */
  method DfsFinish(g: Graph, node: NodeId, visited: set<NodeId>, order: seq<NodeId>)
    returns (visited': set<NodeId>, order': seq<NodeId>)
    requires WellFormed(g) && FirstPass(g, visited, order)
    requires node in g.nodes && node !in visited
    requires forall y :: y in visited - Elems(order) ==> Reach(g, y, node)
    ensures FirstPass(g, visited', order')
    ensures visited + {node} <= visited' && order <= order'
    ensures visited' - Elems(order') == visited - Elems(order)
    decreases g.nodes.Keys - visited
  {
    hide UnfinishedPartner, FinishOrder, Reach;
    ghost var gray := visited - Elems(order) + {node};
    VisitNode(g, visited, order, node);
    visited', order' := visited + {node}, order;
    var todo := Out(g, node);
    while todo != {}
      invariant todo <= Out(g, node)
      invariant FirstPass(g, visited', order')
      invariant visited + {node} <= visited' && order <= order'
      invariant visited' - Elems(order') == gray
      invariant forall e :: e in Out(g, node) - todo ==> g.edges[e].to in visited'
    {
      var e :| e in todo;
      todo := todo - {e};
      if g.edges[e].to !in visited' {
        ReachNeighbor(g, gray, e);
        visited', order' := DfsFinish(g, g.edges[e].to, visited', order');
      }
    }
    assert node in visited' - Elems(order');
    FinishNode(g, visited', order', node);
    assert Elems(order' + [node]) == Elems(order') + {node};
    order' := order' + [node];
  }

  method FinishAll(g: Graph) returns (order: seq<NodeId>)
    requires WellFormed(g)
    ensures NoDup(order) && Elems(order) == g.nodes.Keys
    ensures FinishOrder(g, order)
  {
    var visited: set<NodeId> := {};
    order := [];
    assert FirstPass(g, visited, order);
    hide UnfinishedPartner, FinishOrder, Reach;
    var todo := g.nodes.Keys;
    while todo != {}
      invariant todo <= g.nodes.Keys
      invariant FirstPass(g, visited, order) && visited == Elems(order)
      invariant g.nodes.Keys - todo <= visited
    {
      var node :| node in todo;
      todo := todo - {node};
      if node !in visited {
        assert visited - Elems(order) == {};
        visited, order := DfsFinish(g, node, visited, order);
        assert visited - Elems(order) == {};
        assert visited == Elems(order) + (visited - Elems(order));
      }
    }
  }

  // --------------------------------------- second pass: collect on reversed edges

  ghost predicate ReverseOf(g: Graph, adj: map<NodeId, seq<NodeId>>) {
    && adj.Keys == g.nodes.Keys
    && (forall v, x :: v in adj && x in adj[v] ==>
          exists e :: e in g.edges && g.edges[e].from == x && g.edges[e].to == v)
    && (forall e :: e in g.edges && g.edges[e].to in adj ==> g.edges[e].from in adj[g.edges[e].to])
  }

  method ReverseAdjacency(g: Graph) returns (adj: map<NodeId, seq<NodeId>>)
    requires WellFormed(g)
    ensures ReverseOf(g, adj)
  {
    adj := map v | v in g.nodes :: [];
    var todo := g.edges.Keys;
    while todo != {}
      invariant todo <= g.edges.Keys && adj.Keys == g.nodes.Keys
      invariant forall v, x :: v in adj && x in adj[v] ==>
        exists e :: e in g.edges && g.edges[e].from == x && g.edges[e].to == v
      invariant forall e :: e in g.edges.Keys - todo ==> g.edges[e].from in adj[g.edges[e].to]
    {
      var e :| e in todo;
      todo := todo - {e};
      var to, from := g.edges[e].to, g.edges[e].from;
      adj := adj[to := adj[to] + [from]];
    }
  }

  ghost predicate PredecessorClosed(g: Graph, s: set<NodeId>) {
    forall e :: e in g.edges && g.edges[e].to in s ==> g.edges[e].from in s
  }

  method DfsCollect(ghost g: Graph, adj: map<NodeId, seq<NodeId>>, node: NodeId,
                    visited: set<NodeId>, component: set<NodeId>)
    returns (visited': set<NodeId>, component': set<NodeId>)
    requires WellFormed(g) && ReverseOf(g, adj)
    requires node in g.nodes && node !in visited && visited <= g.nodes.Keys
    ensures visited + {node} <= visited' <= g.nodes.Keys
    ensures component' == component + (visited' - visited)
    ensures forall x :: x in visited' - visited ==> Reach(g, x, node)
    ensures forall e :: e in g.edges && g.edges[e].to in visited' - visited ==> g.edges[e].from in visited'
    decreases g.nodes.Keys - visited
  {
    visited', component' := visited + {node}, component + {node};
    ReachRefl(g, node);
    var i := 0;
    while i < |adj[node]|
      invariant 0 <= i <= |adj[node]|
      invariant visited + {node} <= visited' <= g.nodes.Keys
      invariant component' == component + (visited' - visited)
      invariant forall x :: x in visited' - visited ==> Reach(g, x, node)
      invariant forall j :: 0 <= j < i ==> adj[node][j] in visited'
      invariant forall e :: e in g.edges && g.edges[e].to in visited' - visited && g.edges[e].to != node ==>
        g.edges[e].from in visited'
    {
      var neighbor := adj[node][i];
      assert neighbor in adj[node];
      ghost var e :| e in g.edges && g.edges[e].from == neighbor && g.edges[e].to == node;
      if neighbor !in visited' {
        ghost var before := visited';
        visited', component' := DfsCollect(g, adj, neighbor, visited', component');
        forall x | x in visited' - before ensures Reach(g, x, node) {
          EdgeWalk(g, e);
          ReachTrans(g, x, neighbor, node);
        }
      }
      i := i + 1;
    }
  }

  ghost predicate MutualClass(g: Graph, c: set<NodeId>) {
    && c != {} && c <= g.nodes.Keys
    && forall x, y :: x in c && y in g.nodes ==> (y in c <==> Mutual(g, x, y))
  }

  lemma LatePartner(g: Graph, order: seq<NodeId>, i: nat, u: NodeId) returns (w: NodeId)
    requires FinishOrder(g, order) && i < |order| && Reach(g, u, order[i])
    ensures w !in order[..i] && Mutual(g, u, w)
  {
    hide Reach;
    w :| w !in order[..i] && Mutual(g, u, w);
  }

  /** A node collected from order[i] is in its mutual class: its late partner can only be order[i]. */
  lemma CollectedIsMutual(g: Graph, order: seq<NodeId>, i: nat, visited: set<NodeId>, x: NodeId)
    requires WellFormed(g) && FinishOrder(g, order)
    requires Elems(order) == g.nodes.Keys && i < |order|
    requires PredecessorClosed(g, visited)
    requires forall j :: i < j < |order| ==> order[j] in visited
    requires x in g.nodes && x !in visited && Reach(g, x, order[i])
    ensures Mutual(g, x, order[i])
  {
    hide FinishOrder, Reach;
    var w := LatePartner(g, order, i, x);
    ReachLive(g, x, w);
    assert w in Elems(order);
    var k :| 0 <= k < |order| && order[k] == w;
    if k > i {
      ClosedUnderReach(g, visited, x, w);
      assert false;
    } else if k < i {
      assert false;
    }
  }

  lemma ClosedUnderReach(g: Graph, s: set<NodeId>, x: NodeId, y: NodeId)
    requires PredecessorClosed(g, s) && y in s && Reach(g, x, y)
    ensures x in s
  {
    var es :| IsWalk(g, x, es, y);
    WalkCameFromInside(g, s, x, es, y);
  }

  /** What one collecting search from the last unvisited finisher returns is a whole mutual class. */
  lemma CollectedIsClass(g: Graph, order: seq<NodeId>, i: nat, visited: set<NodeId>, visited': set<NodeId>)
    requires WellFormed(g) && FinishOrder(g, order)
    requires Elems(order) == g.nodes.Keys && i < |order| && order[i] !in visited
    requires visited <= visited' <= g.nodes.Keys && order[i] in visited'
    requires PredecessorClosed(g, visited) && PredecessorClosed(g, visited')
    requires forall j :: i < j < |order| ==> order[j] in visited
    requires forall x :: x in visited' - visited ==> Reach(g, x, order[i])
    ensures MutualClass(g, visited' - visited)
  {
    hide FinishOrder, Reach, PredecessorClosed;
    var root := order[i];
    var c := visited' - visited;
    assert root in c;
    forall x | x in c ensures Mutual(g, x, root) {
      CollectedIsMutual(g, order, i, visited, x);
    }
    forall x, y | x in c && y in g.nodes ensures y in c <==> Mutual(g, x, y) {
      if y in c {
        MutualTrans(g, x, root, y);
      } else if Mutual(g, x, y) {
        if y in visited {
          ClosedUnderReach(g, visited, x, y);
        } else {
          ClosedUnderReach(g, visited', y, x);
        }
        assert false;
      }
    }
  }

  ghost function Union(cs: seq<set<NodeId>>): set<NodeId> {
    if cs == [] then {} else Union(cs[..|cs| - 1]) + cs[|cs| - 1]
  }

  lemma {:induction false} InUnion(cs: seq<set<NodeId>>, v: NodeId)
    ensures v in Union(cs) <==> exists i :: 0 <= i < |cs| && v in cs[i]
  {
    if cs != [] {
      InUnion(cs[..|cs| - 1], v);
    }
  }

  /** Components in an order that no edge goes back against. */
  ghost predicate Condensation(g: Graph, cs: seq<set<NodeId>>) {
    && (forall i :: 0 <= i < |cs| ==> MutualClass(g, cs[i]))
    && (forall i, j :: 0 <= i < j < |cs| ==> cs[i] !! cs[j])
    && (forall i, j, e :: 0 <= i < j < |cs| && e in g.edges && g.edges[e].to in cs[i] ==> g.edges[e].from !in cs[j])
  }

  lemma {:induction false} UnionBounds(cs: seq<set<NodeId>>)
    ensures forall i :: 0 <= i < |cs| ==> cs[i] <= Union(cs)
    ensures forall v :: v in Union(cs) ==> exists i :: 0 <= i < |cs| && v in cs[i]
  {
    forall v ensures v in Union(cs) <==> exists i :: 0 <= i < |cs| && v in cs[i] { InUnion(cs, v); }
  }

  lemma AppendClass(g: Graph, cs: seq<set<NodeId>>, c: set<NodeId>)
    requires Condensation(g, cs) && MutualClass(g, c) && c !! Union(cs)
    requires PredecessorClosed(g, Union(cs))
    ensures Condensation(g, cs + [c]) && Union(cs + [c]) == Union(cs) + c
  {
    hide MutualClass;
    UnionBounds(cs);
    assert (cs + [c])[..|cs|] == cs;
  }

  method StronglyConnectedComponents(g: Graph) returns (components: seq<set<NodeId>>)
    requires WellFormed(g)
    // a partition of the live nodes ...
    ensures forall v :: v in g.nodes ==> exists i :: 0 <= i < |components| && v in components[i]
    // ... into exactly the mutual-reachability classes, every edge going forward
    ensures Condensation(g, components)
  {
    hide MutualClass, FinishOrder, Reach;
    var order := FinishAll(g);
    var adj := ReverseAdjacency(g);
    var visited: set<NodeId> := {};
    components := [];
    var i := |order|;
    while i > 0
      invariant 0 <= i <= |order|
      invariant visited <= g.nodes.Keys && PredecessorClosed(g, visited)
      invariant forall j :: i <= j < |order| ==> order[j] in visited
      invariant visited == Union(components)
      invariant Condensation(g, components)
    {
      i := i - 1;
      var node := order[i];
      assert node in Elems(order);
      if node !in visited {
        var visited', component := DfsCollect(g, adj, node, visited, {});
        CollectedIsClass(g, order, i, visited, visited');
        assert component == visited' - visited;
        AppendClass(g, components, component);
        visited, components := visited', components + [component];
      }
    }
    assert forall v :: v in g.nodes ==> v in Elems(order);
    UnionBounds(components);
  }
}
