/** The shared store: maps instead of slots, ids from counters that only grow. */
module ConcurrentGraph {
  import opened Collections
  import opened Multigraph
  import opened GraphOps
  import opened LabelIndex

  type AdjacencyMap = map<NodeId, set<EdgeId>>

  /** Every live node, and no other, has its adjacency sets, and they are what a scan finds. */
  ghost predicate Adjacent(outgoing: AdjacencyMap, incoming: AdjacencyMap, g: Graph) {
    && outgoing.Keys == incoming.Keys == g.nodes.Keys
    && (forall v :: v in outgoing ==> outgoing[v] == Out(g, v))
    && (forall v :: v in incoming ==> incoming[v] == In(g, v))
  }

  /** Ids not handed out yet are not in use. */
  ghost predicate Below<T>(m: map<nat, T>, next: nat) {
    forall i :: i in m ==> i < next
  }

  function Sets(m: AdjacencyMap, v: NodeId): set<EdgeId> { if v in m then m[v] else {} }

  lemma AdjacentNewNode(outgoing: AdjacencyMap, incoming: AdjacencyMap, g: Graph, id: NodeId, labels: seq<string>)
    requires WellFormed(g) && Adjacent(outgoing, incoming, g)
    ensures Adjacent(outgoing[id := Sets(outgoing, id)], incoming[id := Sets(incoming, id)], AddNode(g, id, labels))
    ensures id !in g.nodes ==> Sets(outgoing, id) == {} && Sets(incoming, id) == {}
  {
    var h := AddNode(g, id, labels);
    if id !in g.nodes {
      DeadHasNoEdges(g, id);
    }
    forall v ensures Out(h, v) == Out(g, v) && In(h, v) == In(g, v) {
      SameEdgesSameAdjacency(h, g, v);
    }
  }

  lemma AdjacentSame(outgoing: AdjacencyMap, incoming: AdjacencyMap, g: Graph, h: Graph)
    requires Adjacent(outgoing, incoming, g) && g.nodes.Keys == h.nodes.Keys && g.edges == h.edges
    ensures Adjacent(outgoing, incoming, h)
  {
    forall v ensures Out(h, v) == Out(g, v) && In(h, v) == In(g, v) {
      SameEdgesSameAdjacency(h, g, v);
    }
  }

  lemma AdjacentPut(outgoing: AdjacencyMap, incoming: AdjacencyMap, g: Graph, e: EdgeId, p: Properties)
    requires Adjacent(outgoing, incoming, g)
    ensures Adjacent(outgoing, incoming, PutEdgeProperties(g, e, p))
  {
    forall v ensures Out(PutEdgeProperties(g, e, p), v) == Out(g, v) && In(PutEdgeProperties(g, e, p), v) == In(g, v) {
      AdjacencyPut(g, e, p, v);
    }
  }

  /** An edge written under an id agrees with the adjacency sets exactly when it does not move a live edge. */
  lemma AdjacentWriteEdge(outgoing: AdjacencyMap, incoming: AdjacencyMap, g: Graph, id: EdgeId, from: NodeId,
                          to: NodeId, t: string)
    requires WellFormed(g) && Adjacent(outgoing, incoming, g) && from in g.nodes && to in g.nodes
    ensures Adjacent(outgoing[from := Sets(outgoing, from) + {id}], incoming[to := Sets(incoming, to) + {id}],
                     AddEdge(g, id, from, to, t))
      <==> (id in g.edges ==> g.edges[id].from == from && g.edges[id].to == to)
  {
    hide Out, In, WellFormed;
    if id in g.edges && (g.edges[id].from != from || g.edges[id].to != to) {
      MovedEdge(outgoing, incoming, g, id, from, to, t);
    } else {
      forall v ensures Out(AddEdge(g, id, from, to, t), v) == (if v == from then Out(g, v) + {id} else Out(g, v))
        ensures In(AddEdge(g, id, from, to, t), v) == (if v == to then In(g, v) + {id} else In(g, v))
      {
        AdjacencyRewrite(g, id, from, to, t, v);
      }
    }
  }

  lemma MovedEdge(outgoing: AdjacencyMap, incoming: AdjacencyMap, g: Graph, id: EdgeId, from: NodeId, to: NodeId,
                  t: string)
    requires WellFormed(g) && Adjacent(outgoing, incoming, g) && from in g.nodes && to in g.nodes
    requires id in g.edges && (g.edges[id].from != from || g.edges[id].to != to)
    ensures !Adjacent(outgoing[from := Sets(outgoing, from) + {id}], incoming[to := Sets(incoming, to) + {id}],
                      AddEdge(g, id, from, to, t))
  {
    var h := AddEdge(g, id, from, to, t);
    if g.edges[id].from != from {
      var was := g.edges[id].from;
      assert id in Out(g, was) && id in outgoing[was] && id !in Out(h, was);
    } else {
      var was := g.edges[id].to;
      assert id in In(g, was) && id in incoming[was] && id !in In(h, was);
    }
  }

  lemma AdjacencyRewrite(g: Graph, id: EdgeId, from: NodeId, to: NodeId, t: string, v: NodeId)
    requires id in g.edges ==> g.edges[id].from == from && g.edges[id].to == to
    ensures var h := AddEdge(g, id, from, to, t);
      && Out(h, v) == (if v == from then Out(g, v) + {id} else Out(g, v))
      && In(h, v) == (if v == to then In(g, v) + {id} else In(g, v))
  {
  }

  lemma AdjacentDropEdge(outgoing: AdjacencyMap, incoming: AdjacencyMap, g: Graph, e: EdgeId)
    requires WellFormed(g) && Adjacent(outgoing, incoming, g) && e in g.edges
    ensures var from, to := g.edges[e].from, g.edges[e].to;
      from in outgoing && to in incoming &&
      Adjacent(outgoing[from := outgoing[from] - {e}], incoming[to := incoming[to] - {e}], DropEdge(g, e))
  {
    forall v ensures Out(DropEdge(g, e), v) == Out(g, v) - {e} && In(DropEdge(g, e), v) == In(g, v) - {e} {
      AdjacencyDrop(g, {e}, g.nodes, v);
    }
  }

  // ------------------------------------------------------------- deleting a node's edges

  /** Some edges at a node are gone; the node itself and its adjacency sets have been removed. */
  ghost predicate Detaching(edges: Edges, outgoing: AdjacencyMap, incoming: AdjacencyMap, g: Graph,
                            id: NodeId, gone: set<EdgeId>, takenIn: bool)
  {
    && edges == g.edges - gone
    && outgoing.Keys == g.nodes.Keys - {id} && incoming.Keys == (if takenIn then g.nodes.Keys - {id} else g.nodes.Keys)
    && (forall v :: v in outgoing ==> outgoing[v] == Out(g, v) - gone)
    && (forall v :: v in incoming ==> incoming[v] == In(g, v) - gone)
  }

  lemma DetachOut(edges: Edges, outgoing: AdjacencyMap, incoming: AdjacencyMap, g: Graph, id: NodeId,
                  gone: set<EdgeId>, e: EdgeId)
    requires WellFormed(g) && Detaching(edges, outgoing, incoming, g, id, gone, false) && e in Out(g, id) && e !in gone
    ensures e in edges && edges[e] == g.edges[e] && g.edges[e].to in incoming
    ensures Detaching(edges - {e}, outgoing, incoming[g.edges[e].to := incoming[g.edges[e].to] - {e}], g, id,
                      gone + {e}, false)
  {
    assert (g.edges - gone) - {e} == g.edges - (gone + {e});
    assert forall v :: v != id ==> e !in Out(g, v);
    assert forall v :: v != g.edges[e].to ==> e !in In(g, v);
  }

  lemma DetachIn(edges: Edges, outgoing: AdjacencyMap, incoming: AdjacencyMap, g: Graph, id: NodeId, gone: set<EdgeId>,
                 e: EdgeId)
    requires WellFormed(g) && Detaching(edges, outgoing, incoming, g, id, gone, true)
    requires Out(g, id) <= gone && e in In(g, id) && e !in gone
    ensures e in edges && edges[e] == g.edges[e] && g.edges[e].from in outgoing
    ensures Detaching(edges - {e}, outgoing[g.edges[e].from := outgoing[g.edges[e].from] - {e}], incoming, g, id,
                      gone + {e}, true)
  {
    assert (g.edges - gone) - {e} == g.edges - (gone + {e});
    assert e !in Out(g, id);
    assert forall v :: v != g.edges[e].from ==> e !in Out(g, v);
    assert forall v :: v != id ==> e !in In(g, v);
  }

  lemma DetachStart(outgoing: AdjacencyMap, incoming: AdjacencyMap, g: Graph, id: NodeId)
    requires Adjacent(outgoing, incoming, g) && id in g.nodes
    ensures id in outgoing && outgoing[id] == Out(g, id)
    ensures Detaching(g.edges, outgoing - {id}, incoming, g, id, {}, false)
  {
    hide Out, In;
    assert g.edges - {} == g.edges;
  }

  lemma DetachTurn(edges: Edges, outgoing: AdjacencyMap, incoming: AdjacencyMap, g: Graph, id: NodeId,
                   gone: set<EdgeId>)
    requires Detaching(edges, outgoing, incoming, g, id, gone, false) && id in g.nodes
    ensures id in incoming && incoming[id] == In(g, id) - gone
    ensures Detaching(edges, outgoing, incoming - {id}, g, id, gone, true)
  {
    hide Out, In;
  }

  lemma DetachEnd(edges: Edges, outgoing: AdjacencyMap, incoming: AdjacencyMap, g: Graph, id: NodeId)
    requires Detaching(edges, outgoing, incoming, g, id, Incident(g, id), true) && id in g.nodes
    ensures Adjacent(outgoing, incoming, DropNode(g, id)) && edges == DropNode(g, id).edges
  {
    forall v
      ensures Out(DropNode(g, id), v) == Out(g, v) - Incident(g, id)
      ensures In(DropNode(g, id), v) == In(g, v) - Incident(g, id)
    {
      AdjacencyDrop(g, Incident(g, id), g.nodes - {id}, v);
    }
  }

  // --------------------------------------------------------------------------- the store

  class ConcurrentGraph {
    var nodes: Nodes
    var edges: Edges
    var outgoing: AdjacencyMap
    var incoming: AdjacencyMap
    var labelIndex: Index
    var nextNodeId: nat
    var nextEdgeId: nat

    ghost function Abs(): Graph
      reads this
    {
      Graph(nodes, edges)
    }

    ghost predicate Structure()
      reads this
    {
      && WellFormed(Abs()) && Adjacent(outgoing, incoming, Abs())
      && Below(nodes, nextNodeId) && Below(edges, nextEdgeId)
    }

    ghost predicate Valid()
      reads this
    {
      Structure() && Indexed(labelIndex, nodes)
    }

    constructor ()
      ensures Valid() && Abs() == Graph(map[], map[])
    {
      nodes, edges, outgoing, incoming, labelIndex := map[], map[], map[], map[], map[];
      nextNodeId, nextEdgeId := 0, 0;
    }

    method NodesByLabel(name: string) returns (r: set<NodeId>)
      requires Valid()
      ensures r == Labelled(Abs().nodes, name)
    {
      hide Labelled, WellFormed, Adjacent, Below;
      r := Lookup(labelIndex, name);
    }

    method OutgoingEdges(v: NodeId) returns (r: set<EdgeId>)
      requires Valid()
      ensures r == Out(Abs(), v)
    {
      hide Out, Indexed, Below, WellFormed;
      if v !in nodes {
        DeadHasNoEdges(Abs(), v);
      }
      r := Sets(outgoing, v);
    }

    method IncomingEdges(v: NodeId) returns (r: set<EdgeId>)
      requires Valid()
      ensures r == In(Abs(), v)
    {
      hide In, Indexed, Below, WellFormed;
      if v !in nodes {
        DeadHasNoEdges(Abs(), v);
      }
      r := Sets(incoming, v);
    }

    /** An id from the counter was never used before. */
    method CreateNodeWithLabels(labels: seq<string>) returns (id: NodeId)
      requires Valid()
      modifies this
      ensures Valid() && id !in old(Abs()).nodes && Abs() == AddNode(old(Abs()), id, labels)
      ensures id == old(nextNodeId) && nextNodeId == id + 1 && nextEdgeId == old(nextEdgeId)
    {
      hide WellFormed, Adjacent, Indexed, Sets, Gained;
      ghost var g := Abs();
      id := nextNodeId;
      assert id !in nodes;
      nextNodeId := nextNodeId + 1;
      var index := Register(labelIndex, id, labels);
      IndexedAfterWrite(labelIndex, g.nodes, id, Node(id, labels, map[]), index);
      AddNodeWellFormed(g, id, labels);
      AdjacentNewNode(outgoing, incoming, g, id, labels);
      labelIndex := index;
      nodes := nodes[id := Node(id, labels, map[])];
      outgoing := outgoing[id := {}];
      incoming := incoming[id := {}];
    }

    /** Create or overwrite a node under a chosen id. The index keeps agreeing with the nodes exactly
        when no label of an overwritten node is dropped. */
    method CreateNodeWithIdAndLabels(id: NodeId, labels: seq<string>)
      requires Valid()
      modifies this
      ensures Structure() && Abs() == AddNode(old(Abs()), id, labels)
      ensures Valid() <==> (id in old(Abs()).nodes ==> forall l :: l in old(Abs()).nodes[id].labels ==> l in labels)
      ensures nextNodeId == Later(old(nextNodeId), id) && nextEdgeId == old(nextEdgeId)
    {
      hide WellFormed, Adjacent, Indexed, Sets, Gained, Out, In;
      ghost var g := Abs();
      nextNodeId := Advance(nextNodeId, id);
      var index := Register(labelIndex, id, labels);
      IndexedAfterWrite(labelIndex, g.nodes, id, Node(id, labels, map[]), index);
      AddNodeWellFormed(g, id, labels);
      AdjacentNewNode(outgoing, incoming, g, id, labels);
      labelIndex := index;
      nodes := nodes[id := Node(id, labels, map[])];
      outgoing := outgoing[id := Sets(outgoing, id)];
      incoming := incoming[id := Sets(incoming, id)];
    }

    method DeleteNode(id: NodeId) returns (r: Option<Node>)
      requires Valid()
      modifies this
      ensures Valid() && Abs() == DropNode(old(Abs()), id) && r == Get(old(Abs()).nodes, id)
      ensures nextNodeId == old(nextNodeId) && nextEdgeId == old(nextEdgeId)
    {
      hide WellFormed, Adjacent, Detaching, Indexed, Lost, Out, In, Incident;
      ghost var g := Abs();
      if id !in nodes {
        return None;
      }
      r := Some(nodes[id]);
      nodes := nodes - {id};
      var index := Unregister(labelIndex, id, r.value.labels, false);
      IndexedAfterDelete(labelIndex, g.nodes, id, index);
      labelIndex := index;
      DetachOutgoing(id, g);
      DetachIncoming(id, g);
      DetachEnd(edges, outgoing, incoming, g, id);
      DropNodeWellFormed(g, id);
      assert Abs() == DropNode(g, id);
    }

    method DetachOutgoing(id: NodeId, ghost g: Graph)
      requires WellFormed(g) && Adjacent(outgoing, incoming, g) && id in g.nodes && edges == g.edges
      modifies this`edges, this`outgoing, this`incoming
      ensures Detaching(edges, outgoing, incoming, g, id, Out(g, id), false)
    {
      hide WellFormed, Adjacent, Detaching, Out, In;
      DetachStart(outgoing, incoming, g, id);
      var todo := outgoing[id];
      outgoing := outgoing - {id};
      ghost var gone: set<EdgeId> := {};
      while todo != {}
        invariant todo + gone == Out(g, id) && todo !! gone
        invariant Detaching(edges, outgoing, incoming, g, id, gone, false)
      {
        var e :| e in todo;
        assert e in Out(g, id);
        DetachOut(edges, outgoing, incoming, g, id, gone, e);
        if e in edges {
          var to := edges[e].to;
          edges := edges - {e};
          if to in incoming {
            incoming := incoming[to := incoming[to] - {e}];
          }
        }
        todo, gone := todo - {e}, gone + {e};
      }
    }

    method DetachIncoming(id: NodeId, ghost g: Graph)
      requires WellFormed(g) && Detaching(edges, outgoing, incoming, g, id, Out(g, id), false) && id in g.nodes
      modifies this`edges, this`outgoing, this`incoming
      ensures Detaching(edges, outgoing, incoming, g, id, Incident(g, id), true)
    {
      hide WellFormed, Adjacent, Detaching, Out, In;
      ghost var gone := Out(g, id);
      DetachTurn(edges, outgoing, incoming, g, id, gone);
      var todo := incoming[id];
      incoming := incoming - {id};
      while todo != {}
        invariant todo + gone == Incident(g, id) && todo !! gone && todo <= In(g, id) && Out(g, id) <= gone
        invariant Detaching(edges, outgoing, incoming, g, id, gone, true)
      {
        var e :| e in todo;
        assert e in In(g, id);
        DetachIn(edges, outgoing, incoming, g, id, gone, e);
        if e in edges {
          var from := edges[e].from;
          edges := edges - {e};
          if from in outgoing {
            outgoing := outgoing[from := outgoing[from] - {e}];
          }
        }
        todo, gone := todo - {e}, gone + {e};
      }
      assert gone == Incident(g, id);
    }

    method CreateEdge(from: NodeId, to: NodeId, edgeType: string) returns (r: Result<EdgeId>)
      requires Valid()
      modifies this
      ensures Valid() && (r.Err? ==> Abs() == old(Abs()) && nextEdgeId == old(nextEdgeId))
      ensures r.Ok? <==> from in old(Abs()).nodes && to in old(Abs()).nodes
      ensures r.Err? ==> r.error == NodeNotFound(if from !in old(Abs()).nodes then from else to)
      ensures r.Ok? ==> r.value !in old(Abs()).edges && Abs() == AddEdge(old(Abs()), r.value, from, to, edgeType)
      ensures r.Ok? ==> r.value == old(nextEdgeId) && nextEdgeId == r.value + 1
      ensures nextNodeId == old(nextNodeId)
    {
      hide WellFormed, Adjacent, Indexed, Out, In, Sets;
      if from !in nodes {
        return Err(NodeNotFound(from));
      }
      if to !in nodes {
        return Err(NodeNotFound(to));
      }
      ghost var g := Abs();
      var id := nextEdgeId;
      assert id !in edges;
      AddEdgeWellFormed(g, id, from, to, edgeType);
      AdjacentWriteEdge(outgoing, incoming, g, id, from, to, edgeType);
      nextEdgeId := nextEdgeId + 1;
      edges := edges[id := Edge(id, edgeType, from, to, map[])];
      outgoing := outgoing[from := Sets(outgoing, from) + {id}];
      incoming := incoming[to := Sets(incoming, to) + {id}];
      r := Ok(id);
    }

    /** Create or overwrite an edge under a chosen id. The adjacency sets keep agreeing with the edges
        exactly when an overwritten edge had the same ends. */
    method CreateEdgeWithId(id: EdgeId, from: NodeId, to: NodeId, edgeType: string) returns (r: Result<EdgeId>)
      requires Valid()
      modifies this
      ensures r.Ok? <==> from in old(Abs()).nodes && to in old(Abs()).nodes
      ensures r.Err? ==>
        Valid() && Abs() == old(Abs()) && r.error == NodeNotFound(if from !in old(Abs()).nodes then from else to)
      ensures r.Ok? ==> r.value == id && Abs() == AddEdge(old(Abs()), id, from, to, edgeType)
      ensures r.Ok? ==> (Valid() <==>
        (id in old(Abs()).edges ==> old(Abs()).edges[id].from == from && old(Abs()).edges[id].to == to))
      ensures nextNodeId == old(nextNodeId)
      ensures nextEdgeId == if r.Ok? then Later(old(nextEdgeId), id) else old(nextEdgeId)
    {
      hide WellFormed, Adjacent, Indexed, Out, In, Sets;
      if from !in nodes {
        return Err(NodeNotFound(from));
      }
      if to !in nodes {
        return Err(NodeNotFound(to));
      }
      ghost var g := Abs();
      AddEdgeWellFormed(g, id, from, to, edgeType);
      AdjacentWriteEdge(outgoing, incoming, g, id, from, to, edgeType);
      nextEdgeId := Advance(nextEdgeId, id);
      edges := edges[id := Edge(id, edgeType, from, to, map[])];
      outgoing := outgoing[from := Sets(outgoing, from) + {id}];
      incoming := incoming[to := Sets(incoming, to) + {id}];
      r := Ok(id);
    }

    method DeleteEdge(id: EdgeId) returns (r: Option<Edge>)
      requires Valid()
      modifies this
      ensures Valid() && Abs() == DropEdge(old(Abs()), id) && r == Get(old(Abs()).edges, id)
      ensures nextNodeId == old(nextNodeId) && nextEdgeId == old(nextEdgeId)
    {
      hide WellFormed, Adjacent, Indexed, Out, In;
      ghost var g := Abs();
      if id !in edges {
        assert DropEdge(g, id) == g;
        return None;
      }
      var e := edges[id];
      r := Some(e);
      DropEdgeWellFormed(g, id);
      AdjacentDropEdge(outgoing, incoming, g, id);
      edges := edges - {id};
      if e.from in outgoing {
        outgoing := outgoing[e.from := outgoing[e.from] - {id}];
      }
      if e.to in incoming {
        incoming := incoming[e.to := incoming[e.to] - {id}];
      }
    }

    /** Write a live node back with other labels or properties. */
    method WriteNode(id: NodeId, n: Node)
      requires Structure() && id in nodes && n.id == id
      modifies this`nodes
      ensures Structure() && Abs() == Graph(old(Abs()).nodes[id := n], old(Abs()).edges)
    {
      ghost var g := Abs();
      assert WellFormed(Graph(g.nodes[id := n], g.edges));
      hide WellFormed, Adjacent;
      AdjacentSame(outgoing, incoming, g, Graph(g.nodes[id := n], g.edges));
      nodes := nodes[id := n];
    }

    method WriteEdgeProperties(id: EdgeId, properties: Properties)
      requires Valid() && id in edges
      modifies this`edges
      ensures Valid() && Abs() == PutEdgeProperties(old(Abs()), id, properties)
    {
      hide WellFormed, Adjacent, Indexed;
      ghost var g := Abs();
      PutWellFormed(g, 0, id, properties, []);
      AdjacentPut(outgoing, incoming, g, id, properties);
      edges := edges[id := edges[id].(properties := properties)];
    }

    method AddNodeLabel(id: NodeId, name: string)
      requires Valid()
      modifies this
      ensures Structure() && Abs() == AddLabel(old(Abs()), id, name)
      ensures name != "" ==> NodeLabel(old(Abs()), Abs(), id, name, true)
      ensures Valid() <==> name != "" || id !in old(Abs()).nodes || name in old(Abs()).nodes[id].labels
      ensures nextNodeId == old(nextNodeId) && nextEdgeId == old(nextEdgeId)
    {
      LabelReads(Abs(), id, name);
      ghost var g := Abs();
      if id in nodes {
        var n := nodes[id];
        if name !in n.labels {
          assert n.id == id;
          hide WellFormed, Adjacent, Indexed;
          IndexedAfterAddLabel(labelIndex, g.nodes, id, name);
          WriteNode(id, n.(labels := WithLabel(n.labels, name)));
          labelIndex := Filed(labelIndex, id, name);
        }
      }
    }

    method RemoveNodeLabel(id: NodeId, name: string)
      requires Valid()
      modifies this
      ensures Valid() && Abs() == RemoveLabel(old(Abs()), id, name)
      ensures NodeLabel(old(Abs()), Abs(), id, name, false)
      ensures nextNodeId == old(nextNodeId) && nextEdgeId == old(nextEdgeId)
    {
      LabelReads(Abs(), id, name);
      ghost var g := Abs();
      if id in nodes {
        var n := nodes[id];
        assert n.id == id;
        hide WellFormed, Adjacent, Indexed;
        if name in n.labels {
          IndexedAfterRemoveLabel(labelIndex, g.nodes, id, name, false);
          WriteNode(id, n.(labels := Without(n.labels, name)));
          labelIndex := Unfiled(labelIndex, id, name, false);
        } else {
          WithoutAbsent(n.labels, name);
        }
      }
    }

    method SetNodeProperty(id: NodeId, key: string, value: PropertyValue)
      requires Valid()
      modifies this
      ensures Valid() && Abs() == GraphOps.SetNodeProperty(old(Abs()), id, key, value)
      ensures NodeKey(old(Abs()), Abs(), id, key, Some(value))
      ensures nextNodeId == old(nextNodeId) && nextEdgeId == old(nextEdgeId)
    {
      PropertyReads(Abs(), id, id, key, value);
      if id in nodes {
        var n := nodes[id];
        assert n.id == id;
        hide WellFormed, Adjacent, Indexed;
        IndexedSameLabels(labelIndex, nodes, id, n.properties[key := value]);
        WriteNode(id, n.(properties := n.properties[key := value]));
      }
    }

    method RemoveNodeProperty(id: NodeId, key: string) returns (r: Option<PropertyValue>)
      requires Valid()
      modifies this
      ensures Valid() && Abs() == GraphOps.RemoveNodeProperty(old(Abs()), id, key)
      ensures NodeKey(old(Abs()), Abs(), id, key, None)
      ensures r == Get(NodeProperties(old(Abs()), id), key)
      ensures nextNodeId == old(nextNodeId) && nextEdgeId == old(nextEdgeId)
    {
      PropertyReads(Abs(), id, id, key, Null);
      r := None;
      if id in nodes {
        var n := nodes[id];
        assert n.id == id;
        hide WellFormed, Adjacent, Indexed;
        r := Get(n.properties, key);
        IndexedSameLabels(labelIndex, nodes, id, n.properties - {key});
        WriteNode(id, n.(properties := n.properties - {key}));
      }
    }

    method SetEdgeProperty(id: EdgeId, key: string, value: PropertyValue)
      requires Valid()
      modifies this
      ensures Valid() && Abs() == GraphOps.SetEdgeProperty(old(Abs()), id, key, value)
      ensures EdgeKey(old(Abs()), Abs(), id, key, Some(value))
      ensures nextNodeId == old(nextNodeId) && nextEdgeId == old(nextEdgeId)
    {
      PropertyReads(Abs(), id, id, key, value);
      hide WellFormed, Adjacent, Indexed;
      if id in edges {
        WriteEdgeProperties(id, edges[id].properties[key := value]);
      }
    }

    method RemoveEdgeProperty(id: EdgeId, key: string) returns (r: Option<PropertyValue>)
      requires Valid()
      modifies this
      ensures Valid() && Abs() == GraphOps.RemoveEdgeProperty(old(Abs()), id, key)
      ensures EdgeKey(old(Abs()), Abs(), id, key, None)
      ensures r == Get(EdgeProperties(old(Abs()), id), key)
      ensures nextNodeId == old(nextNodeId) && nextEdgeId == old(nextEdgeId)
    {
      PropertyReads(Abs(), id, id, key, Null);
      hide WellFormed, Adjacent, Indexed;
      r := None;
      if id in edges {
        r := Get(edges[id].properties, key);
        WriteEdgeProperties(id, edges[id].properties - {key});
      }
    }
  }

  /** The counter after an id was claimed: past the id, never back. */
  function Later(next: nat, id: nat): nat { if next <= id then id + 1 else next }

  /** The compare-and-swap loop when no other thread interferes: its first attempt succeeds.
      Module IdCounters has the loop under every interleaving. */
  method Advance(counter: nat, id: nat) returns (next: nat)
    ensures next == Later(counter, id)
  {
    next := counter;
    if counter <= id {
      next := id + 1;
    }
  }
}
