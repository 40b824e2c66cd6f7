/** The single-threaded store: slot arrays with free lists, adjacency sets, counters and a label index. */
module GraphStore {
  import opened Collections
  import opened Multigraph
  import opened GraphOps
  import opened LabelIndex
  import opened Slots

  type Adjacency = seq<set<EdgeId>>

  function GraphOf(nodes: seq<Option<Node>>, edges: seq<Option<Edge>>): Graph {
    Graph(Live(nodes), Live(edges))
  }

  /** The adjacency sets are what a scan over the edges finds, also for empty slots. */
  ghost predicate Adjacent(outgoing: Adjacency, incoming: Adjacency, g: Graph) {
    && |outgoing| == |incoming|
    && forall v :: 0 <= v < |outgoing| ==> outgoing[v] == Out(g, v) && incoming[v] == In(g, v)
  }

  lemma AdjacentNewNode(outgoing: Adjacency, incoming: Adjacency, g: Graph, id: NodeId, labels: seq<string>)
    requires WellFormed(g) && Adjacent(outgoing, incoming, g) && id < |outgoing| && id !in g.nodes
    ensures Adjacent(outgoing[id := {}], incoming[id := {}], AddNode(g, id, labels))
  {
    DeadHasNoEdges(g, id);
    forall v | 0 <= v < |outgoing|
      ensures Out(AddNode(g, id, labels), v) == Out(g, v) && In(AddNode(g, id, labels), v) == In(g, v)
    {
      SameEdgesSameAdjacency(AddNode(g, id, labels), g, v);
    }
  }

  lemma AdjacentLonger(outgoing: Adjacency, incoming: Adjacency, g: Graph, n: nat)
    requires WellFormed(g) && Adjacent(outgoing, incoming, g) && n >= |outgoing|
    requires forall v :: v in g.nodes ==> v < |outgoing|
    ensures Adjacent(outgoing + Empties(n - |outgoing|), incoming + Empties(n - |outgoing|), g)
  {
    forall v | |outgoing| <= v < n ensures Out(g, v) == {} && In(g, v) == {} {
      DeadHasNoEdges(g, v);
    }
  }

  function Empties(n: nat): Adjacency { seq(n, _ => {}) }

  lemma EmptiesSize(n: nat)
    ensures |Empties(n)| == n
  {
  }

  lemma AdjacentSame(outgoing: Adjacency, incoming: Adjacency, g: Graph, h: Graph)
    requires Adjacent(outgoing, incoming, g)
    requires g.edges == h.edges || exists e, p :: h == PutEdgeProperties(g, e, p)
    ensures Adjacent(outgoing, incoming, h)
  {
    forall v | 0 <= v < |outgoing| ensures Out(g, v) == Out(h, v) && In(g, v) == In(h, v) {
      if g.edges == h.edges {
        SameEdgesSameAdjacency(g, h, v);
      } else {
        var e, p :| h == PutEdgeProperties(g, e, p);
        AdjacencyPut(g, e, p, v);
      }
    }
  }

  lemma AdjacentAddEdge(outgoing: Adjacency, incoming: Adjacency, g: Graph, id: EdgeId, from: NodeId, to: NodeId,
                        t: string)
    requires Adjacent(outgoing, incoming, g) && id !in g.edges && from < |outgoing| && to < |incoming|
    ensures Adjacent(outgoing[from := outgoing[from] + {id}], incoming[to := incoming[to] + {id}],
                     AddEdge(g, id, from, to, t))
  {
    forall v | 0 <= v < |outgoing|
      ensures outgoing[from := outgoing[from] + {id}][v] == Out(AddEdge(g, id, from, to, t), v)
      ensures incoming[to := incoming[to] + {id}][v] == In(AddEdge(g, id, from, to, t), v)
    {
      AdjacencyAddEdge(g, id, from, to, t, v);
    }
  }

  lemma AdjacentDropEdge(outgoing: Adjacency, incoming: Adjacency, g: Graph, e: EdgeId)
    requires Adjacent(outgoing, incoming, g) && e in g.edges
    requires g.edges[e].from < |outgoing| && g.edges[e].to < |incoming|
    ensures var from, to := g.edges[e].from, g.edges[e].to;
      Adjacent(outgoing[from := outgoing[from] - {e}], incoming[to := incoming[to] - {e}], DropEdge(g, e))
  {
    forall v | 0 <= v < |outgoing|
      ensures Out(DropEdge(g, e), v) == Out(g, v) - {e} && In(DropEdge(g, e), v) == In(g, v) - {e}
    {
      AdjacencyDrop(g, {e}, g.nodes, v);
    }
  }

  // ------------------------------------------------------------- deleting a node's edges

  /** Some edges at a node are gone; its own adjacency sets have been taken away for iteration. */
  ghost predicate Detaching(edges: seq<Option<Edge>>, outgoing: Adjacency, incoming: Adjacency, g: Graph,
                            id: NodeId, gone: set<EdgeId>, takenIn: bool)
  {
    && Live(edges) == g.edges - gone
    && |outgoing| == |incoming|
    && (forall v :: 0 <= v < |outgoing| ==> outgoing[v] == if v == id then {} else Out(g, v) - gone)
    && (forall v :: 0 <= v < |incoming| ==> incoming[v] == if v == id && takenIn then {} else In(g, v) - gone)
  }

  lemma DetachStart(edges: seq<Option<Edge>>, outgoing: Adjacency, incoming: Adjacency, g: Graph, id: NodeId)
    requires Adjacent(outgoing, incoming, g) && Live(edges) == g.edges && id < |outgoing|
    ensures Detaching(edges, outgoing[id := {}], incoming, g, id, {}, false)
  {
    hide Out, In, Live;
    assert g.edges - {} == g.edges;
  }

  lemma DetachTurn(edges: seq<Option<Edge>>, outgoing: Adjacency, incoming: Adjacency, g: Graph, id: NodeId,
                   gone: set<EdgeId>)
    requires Detaching(edges, outgoing, incoming, g, id, gone, false) && id < |incoming|
    ensures incoming[id] == In(g, id) - gone
    ensures Detaching(edges, outgoing, incoming[id := {}], g, id, gone, true)
  {
    hide Out, In, Live;
  }

  lemma DetachOut(edges: seq<Option<Edge>>, outgoing: Adjacency, incoming: Adjacency, g: Graph, id: NodeId,
                  gone: set<EdgeId>, e: EdgeId)
    requires Detaching(edges, outgoing, incoming, g, id, gone, false)
    requires e in Out(g, id) && e !in gone && g.edges[e].to < |incoming|
    ensures e < |edges| && edges[e] == Some(g.edges[e])
    ensures Detaching(edges[e := None], outgoing, incoming[g.edges[e].to := incoming[g.edges[e].to] - {e}], g, id,
                      gone + {e}, false)
  {
    LiveAt(edges, e);
    LiveTake(edges, e);
    assert (g.edges - gone) - {e} == g.edges - (gone + {e});
    hide Live;
    assert forall v :: v != id ==> e !in Out(g, v);
    assert forall v :: v != g.edges[e].to ==> e !in In(g, v);
  }

  lemma DetachIn(edges: seq<Option<Edge>>, outgoing: Adjacency, incoming: Adjacency, g: Graph, id: NodeId,
                 gone: set<EdgeId>, e: EdgeId)
    requires Detaching(edges, outgoing, incoming, g, id, gone, true)
    requires Out(g, id) <= gone && e in In(g, id) && e !in gone && g.edges[e].from < |outgoing|
    ensures e < |edges| && edges[e] == Some(g.edges[e])
    ensures Detaching(edges[e := None], outgoing[g.edges[e].from := outgoing[g.edges[e].from] - {e}], incoming, g, id,
                      gone + {e}, true)
  {
    LiveAt(edges, e);
    LiveTake(edges, e);
    assert (g.edges - gone) - {e} == g.edges - (gone + {e});
    hide Live;
    assert e !in Out(g, id);
    assert forall v :: v != g.edges[e].from ==> e !in Out(g, v);
    assert forall v :: v != id ==> e !in In(g, v);
  }

  lemma DetachEnd(edges: seq<Option<Edge>>, outgoing: Adjacency, incoming: Adjacency, g: Graph, id: NodeId)
    requires Detaching(edges, outgoing, incoming, g, id, Incident(g, id), true) && id in g.nodes
    ensures Adjacent(outgoing, incoming, DropNode(g, id)) && Live(edges) == DropNode(g, id).edges
  {
    var gone := Incident(g, id);
    forall v | 0 <= v < |outgoing|
      ensures outgoing[v] == Out(DropNode(g, id), v) && incoming[v] == In(DropNode(g, id), v)
    {
      AdjacencyDrop(g, gone, g.nodes - {id}, v);
    }
  }

  // --------------------------------------------------------------------------- the store

  class GraphStore {
    var nodes: seq<Option<Node>>
    var edges: seq<Option<Edge>>
    var outgoing: Adjacency
    var incoming: Adjacency
    var nodeFree: seq<NodeId>
    var edgeFree: seq<EdgeId>
    var nodeCount: nat
    var edgeCount: nat
    var labelIndex: Index

    /** The stored multigraph. */
    ghost function Abs(): Graph
      reads this
    {
      GraphOf(nodes, edges)
    }

    /** Slots, adjacency sets, free lists and counters describe one well-formed multigraph. */
    ghost predicate Structure()
      reads this
    {
      && WellFormed(Abs())
      && Adjacent(outgoing, incoming, Abs()) && |outgoing| == |incoming| == |nodes|
      && FreeSome(nodeFree, nodes) && FreeAll(edgeFree, edges)
      && nodeCount == |Abs().nodes| && edgeCount == |Abs().edges|
    }

    ghost predicate Valid()
      reads this
    {
      Structure() && Indexed(labelIndex, Abs().nodes) && Tidy(labelIndex)
    }

    constructor ()
      ensures Valid() && Abs() == Graph(map[], map[])
    {
      nodes, edges, outgoing, incoming, nodeFree, edgeFree := [], [], [], [], [], [];
      nodeCount, edgeCount, labelIndex := 0, 0, map[];
    }

    /** The nodes with a label, without a scan. */
    method NodesByLabel(name: string) returns (r: set<NodeId>)
      requires Valid()
      ensures r == Labelled(Abs().nodes, name)
    {
      hide Live, Labelled, WellFormed, Adjacent, FreeSome, FreeAll, Tidy;
      r := Lookup(labelIndex, name);
    }

    /** The edges leaving a node, without a scan. */
    method OutgoingEdges(v: NodeId) returns (r: set<EdgeId>)
      requires Valid()
      ensures r == Out(Abs(), v)
    {
      hide Live, Out, Indexed, FreeSome, FreeAll, Tidy;
      if v < |outgoing| {
        r := outgoing[v];
      } else {
        LiveAt(nodes, v);
        DeadHasNoEdges(Abs(), v);
        r := {};
      }
    }

    /** The edges entering a node, without a scan. */
    method IncomingEdges(v: NodeId) returns (r: set<EdgeId>)
      requires Valid()
      ensures r == In(Abs(), v)
    {
      hide Live, In, Indexed, FreeSome, FreeAll, Tidy;
      if v < |incoming| {
        r := incoming[v];
      } else {
        LiveAt(nodes, v);
        DeadHasNoEdges(Abs(), v);
        r := {};
      }
    }

    method GetEdge(id: EdgeId) returns (r: Option<Edge>)
      requires Valid()
      ensures r == Get(Abs().edges, id)
    {
      hide Live, WellFormed, Adjacent, FreeSome, FreeAll, Indexed, Tidy;
      LiveAt(edges, id);
      r := if id < |edges| then edges[id] else None;
    }

    method GetNode(id: NodeId) returns (r: Option<Node>)
      requires Valid()
      ensures r == Get(Abs().nodes, id)
    {
      hide Live, WellFormed, Adjacent, FreeSome, FreeAll, Indexed, Tidy, Out, In;
      LiveAt(nodes, id);
      r := if id < |nodes| then nodes[id] else None;
    }

    /** Reuse the slot freed last, or append one. */
    method CreateNodeWithLabels(labels: seq<string>) returns (id: NodeId)
      requires Valid()
      modifies this
      ensures Valid() && id !in old(Abs()).nodes && Abs() == AddNode(old(Abs()), id, labels)
      ensures id == if old(nodeFree) != [] then old(nodeFree)[|old(nodeFree)| - 1] else |old(nodes)|
    {
      hide Live, WellFormed, Adjacent, FreeSome, FreeAll, Indexed, Tidy, Out, In;
      ghost var g := Abs();
      if nodeFree != [] {
        id := nodeFree[|nodeFree| - 1];
        ghost var n := Node(id, labels, map[]);
        FreePop(nodeFree, nodes, n);
        LiveAt(nodes, id);
        LivePut(nodes, id, n);
        AdjacentNewNode(outgoing, incoming, g, id, labels);
        nodeFree := nodeFree[..|nodeFree| - 1];
        nodes := nodes[id := Some(Node(id, labels, map[]))];
        outgoing := outgoing[id := {}];
        incoming := incoming[id := {}];
      } else {
        id := |nodes|;
        ghost var n := Node(id, labels, map[]);
        FreeAppend(nodeFree, nodes, n);
        LivePush(nodes, n);
        LiveBelow(nodes);
        AdjacentLonger(outgoing, incoming, g, id + 1);
        AdjacentNewNode(outgoing + Empties(1), incoming + Empties(1), g, id, labels);
        nodes := nodes + [Some(Node(id, labels, map[]))];
        assert (outgoing + Empties(1))[id := {}] == outgoing + [{}] &&
          (incoming + Empties(1))[id := {}] == incoming + [{}];
        outgoing := outgoing + [{}];
        incoming := incoming + [{}];
      }
      CountPut(g.nodes, id, Node(id, labels, map[]));
      AddNodeWellFormed(g, id, labels);
      nodeCount := nodeCount + 1;
      var index := Register(labelIndex, id, labels);
      IndexedAfterWrite(labelIndex, g.nodes, id, Node(id, labels, map[]), index);
      labelIndex := index;
    }

    /** Create a node with one label, or with none when it is empty. */
    method CreateNode(name: string) returns (id: NodeId)
      requires Valid()
      modifies this
      ensures Valid() && id !in old(Abs()).nodes && Abs() == AddNode(old(Abs()), id, OneLabel(name))
    {
      hide Live, WellFormed, Adjacent, FreeSome, FreeAll, Indexed, Tidy, Out, In, AddNode;
      id := CreateNodeWithLabels(if name == "" then [] else [name]);
    }

    /** Extend the backing arrays so that slot id exists; slots skipped over are not listed as free. */
    method Extend(id: NodeId)
      requires Structure()
      modifies this`nodes, this`outgoing, this`incoming
      ensures Structure() && Abs() == old(Abs()) && id < |nodes|
    {
      hide Live, WellFormed, Adjacent, FreeSome, FreeAll, Empties, Out, In, Resized;
      if id >= |nodes| {
        LiveResized(nodes, id + 1);
        FreeResized(nodeFree, nodes, id + 1);
        LiveBelow(nodes);
        AdjacentLonger(outgoing, incoming, Abs(), id + 1);
        EmptiesSize(id + 1 - |outgoing|);
        outgoing := outgoing + Empties(id + 1 - |outgoing|);
        incoming := incoming + Empties(id + 1 - |incoming|);
        nodes := Resized(nodes, id + 1);
      }
    }

    /** Create a node under a chosen id; nothing happens when the id is live. */
    method CreateNodeWithIdAndLabels(id: NodeId, labels: seq<string>)
      requires Valid()
      modifies this
      ensures Valid()
      ensures Abs() == if id in old(Abs()).nodes then old(Abs()) else AddNode(old(Abs()), id, labels)
    {
      hide Live, WellFormed, Adjacent, FreeSome, FreeAll, Indexed, Tidy, Out, In, Without, Gained;
      ghost var g := Abs();
      LiveAt(nodes, id);
      if id < |nodes| && nodes[id].Some? {
        return;
      }
      Extend(id);
      ghost var n := Node(id, labels, map[]);
      FreeClaim(nodeFree, nodes, id, n);
      nodeFree := Without(nodeFree, id);
      LivePut(nodes, id, n);
      AdjacentNewNode(outgoing, incoming, g, id, labels);
      nodes := nodes[id := Some(Node(id, labels, map[]))];
      outgoing := outgoing[id := {}];
      incoming := incoming[id := {}];
      CountPut(g.nodes, id, n);
      AddNodeWellFormed(g, id, labels);
      nodeCount := nodeCount + 1;
      var index := Register(labelIndex, id, labels);
      IndexedAfterWrite(labelIndex, g.nodes, id, n, index);
      labelIndex := index;
    }

    /** Delete a node, its edges and its index entries. */
    method DeleteNode(id: NodeId) returns (r: Option<Node>)
      requires Valid()
      modifies this
      ensures Valid() && Abs() == DropNode(old(Abs()), id) && r == Get(old(Abs()).nodes, id)
    {
      hide Live, WellFormed, Adjacent, Detaching, FreeSome, FreeAll, Indexed, Tidy, Out, In, Incident, Lost;
      ghost var g := Abs();
      LiveAt(nodes, id);
      if !(id < |nodes| && nodes[id].Some?) {
        return None;
      }
      DetachOutgoing(id, g);
      DetachIncoming(id, g);
      DetachEnd(edges, outgoing, incoming, g, id);
      r := nodes[id];
      LiveTake(nodes, id);
      FreePush(nodeFree, nodes, id);
      CountTake(g.nodes, id);
      DropNodeWellFormed(g, id);
      nodes := nodes[id := None];
      var index := Unregister(labelIndex, id, r.value.labels, true);
      IndexedAfterDelete(labelIndex, g.nodes, id, index);
      labelIndex := index;
      nodeFree := nodeFree + [id];
      nodeCount := nodeCount - 1;
      assert Abs() == DropNode(g, id);
    }

    /** Remove the edges going from a node. */
    method DetachOutgoing(id: NodeId, ghost g: Graph)
      requires Structure() && g == Abs() && id in g.nodes
      modifies this`edges, this`outgoing, this`incoming, this`edgeFree, this`edgeCount
      ensures |outgoing| == |incoming| == |nodes| && Detaching(edges, outgoing, incoming, g, id, Out(g, id), false)
      ensures FreeAll(edgeFree, edges) && edgeCount == |Live(edges)|
    {
      hide Live, Adjacent, Detaching, FreeSome, FreeAll, WellFormed, Out, In;
      LiveBelow(nodes);
      var todo := outgoing[id];
      assert todo == Out(g, id) by { AdjacentAt(outgoing, incoming, g, id); }
      DetachStart(edges, outgoing, incoming, g, id);
      outgoing := outgoing[id := {}];
      ghost var gone: set<EdgeId> := {};
      while todo != {}
        invariant |outgoing| == |incoming| == |nodes| && todo + gone == Out(g, id) && todo !! gone
        invariant Detaching(edges, outgoing, incoming, g, id, gone, false)
        invariant FreeAll(edgeFree, edges) && edgeCount == |Live(edges)|
      {
        var e :| e in todo;
        assert e in Out(g, id);
        AtNode(g, id, e);
        DetachOut(edges, outgoing, incoming, g, id, gone, e);
        LiveAt(edges, e);
        if e < |edges| && edges[e].Some? {
          var to := edges[e].value.to;
          LiveTake(edges, e);
          CountTake(Live(edges), e);
          FreeAllPush(edgeFree, edges, e);
          edges := edges[e := None];
          if to < |incoming| {
            incoming := incoming[to := incoming[to] - {e}];
          }
          edgeFree := edgeFree + [e];
          edgeCount := edgeCount - 1;
        }
        todo, gone := todo - {e}, gone + {e};
      }
    }

    /** Remove the remaining edges going to a node. */
    method DetachIncoming(id: NodeId, ghost g: Graph)
      requires WellFormed(g) && id in g.nodes && g.nodes == Live(nodes) && |outgoing| == |incoming| == |nodes|
      requires Detaching(edges, outgoing, incoming, g, id, Out(g, id), false)
      requires FreeAll(edgeFree, edges) && edgeCount == |Live(edges)|
      modifies this`edges, this`outgoing, this`incoming, this`edgeFree, this`edgeCount
      ensures |outgoing| == |incoming| == |nodes| && Detaching(edges, outgoing, incoming, g, id, Incident(g, id), true)
      ensures FreeAll(edgeFree, edges) && edgeCount == |Live(edges)|
    {
      hide Live, Adjacent, Detaching, FreeSome, FreeAll, WellFormed, Out, In;
      LiveBelow(nodes);
      ghost var gone := Out(g, id);
      DetachTurn(edges, outgoing, incoming, g, id, gone);
      var todo := incoming[id];
      incoming := incoming[id := {}];
      while todo != {}
        invariant |outgoing| == |incoming| == |nodes| && todo + gone == Incident(g, id) && todo !! gone
        invariant todo <= In(g, id) && Out(g, id) <= gone
        invariant Detaching(edges, outgoing, incoming, g, id, gone, true)
        invariant FreeAll(edgeFree, edges) && edgeCount == |Live(edges)|
      {
        var e :| e in todo;
        assert e in In(g, id);
        AtNode(g, id, e);
        DetachIn(edges, outgoing, incoming, g, id, gone, e);
        LiveAt(edges, e);
        if e < |edges| && edges[e].Some? {
          var from := edges[e].value.from;
          LiveTake(edges, e);
          CountTake(Live(edges), e);
          FreeAllPush(edgeFree, edges, e);
          edges := edges[e := None];
          if from < |outgoing| {
            outgoing := outgoing[from := outgoing[from] - {e}];
          }
          edgeFree := edgeFree + [e];
          edgeCount := edgeCount - 1;
        }
        todo, gone := todo - {e}, gone + {e};
      }
      assert gone == Incident(g, id);
    }

    method CreateEdge(from: NodeId, to: NodeId, edgeType: string) returns (r: Result<EdgeId>)
      requires Valid()
      modifies this
      ensures Valid() && (r.Err? ==> Abs() == old(Abs()))
      ensures r.Ok? <==> from in old(Abs()).nodes && to in old(Abs()).nodes
      ensures r.Err? ==> r.error == NodeNotFound(if from !in old(Abs()).nodes then from else to)
      ensures r.Ok? ==> r.value !in old(Abs()).edges && Abs() == AddEdge(old(Abs()), r.value, from, to, edgeType)
    {
      hide Live, WellFormed, Adjacent, FreeSome, FreeAll, Indexed, Tidy, Out, In;
      ghost var g := Abs();
      LiveAt(nodes, from);
      LiveAt(nodes, to);
      if !(from < |nodes| && nodes[from].Some?) {
        return Err(NodeNotFound(from));
      }
      if !(to < |nodes| && nodes[to].Some?) {
        return Err(NodeNotFound(to));
      }
      var id: EdgeId;
      FreeAllSome(edgeFree, edges);
      if edgeFree != [] {
        id := edgeFree[|edgeFree| - 1];
        ghost var e := Edge(id, edgeType, from, to, map[]);
        FreePop(edgeFree, edges, e);
        LiveAt(edges, id);
        LivePut(edges, id, e);
        edgeFree := edgeFree[..|edgeFree| - 1];
        edges := edges[id := Some(Edge(id, edgeType, from, to, map[]))];
      } else {
        id := |edges|;
        FreeAppend(edgeFree, edges, Edge(id, edgeType, from, to, map[]));
        LivePush(edges, Edge(id, edgeType, from, to, map[]));
        edges := edges + [Some(Edge(id, edgeType, from, to, map[]))];
      }
      LinkEdge(g, id, from, to, edgeType);
      r := Ok(id);
    }

    /** Enter a new edge into the adjacency sets and count it. */
    method LinkEdge(ghost g: Graph, id: EdgeId, from: NodeId, to: NodeId, edgeType: string)
      requires id !in g.edges && from in g.nodes && to in g.nodes && WellFormed(g)
      requires Adjacent(outgoing, incoming, g) && |outgoing| == |incoming| == |nodes| && edgeCount == |g.edges|
      requires Live(nodes) == g.nodes && Live(edges) == AddEdge(g, id, from, to, edgeType).edges
      modifies this`outgoing, this`incoming, this`edgeCount
      ensures Abs() == AddEdge(g, id, from, to, edgeType) && WellFormed(Abs())
      ensures Adjacent(outgoing, incoming, Abs()) && |outgoing| == |incoming| == |nodes| && edgeCount == |Abs().edges|
    {
      hide Live, WellFormed, Adjacent;
      LiveBelow(nodes);
      AdjacentAddEdge(outgoing, incoming, g, id, from, to, edgeType);
      AddEdgeWellFormed(g, id, from, to, edgeType);
      CountPut(g.edges, id, Edge(id, edgeType, from, to, map[]));
      outgoing := outgoing[from := outgoing[from] + {id}];
      incoming := incoming[to := incoming[to] + {id}];
      edgeCount := edgeCount + 1;
    }

    /** Create an edge under a chosen id; slots skipped over become free. */
    method CreateEdgeWithId(id: EdgeId, from: NodeId, to: NodeId, edgeType: string) returns (r: Result<EdgeId>)
      requires Valid()
      modifies this
      ensures Valid() && (r.Err? ==> Abs() == old(Abs()))
      ensures r.Ok? <==> from in old(Abs()).nodes && to in old(Abs()).nodes
      ensures r.Err? ==> r.error == NodeNotFound(if from !in old(Abs()).nodes then from else to)
      ensures r.Ok? ==> r.value == id
      ensures r.Ok? ==>
        Abs() == if id in old(Abs()).edges then old(Abs()) else AddEdge(old(Abs()), id, from, to, edgeType)
    {
      hide Live, WellFormed, Adjacent, FreeSome, FreeAll, Indexed, Tidy, Out, In;
      ghost var g := Abs();
      LiveAt(nodes, from);
      LiveAt(nodes, to);
      if !(from < |nodes| && nodes[from].Some?) {
        return Err(NodeNotFound(from));
      }
      if !(to < |nodes| && nodes[to].Some?) {
        return Err(NodeNotFound(to));
      }
      LiveAt(edges, id);
      if id < |edges| && edges[id].Some? {
        return Ok(id);
      }
      ghost var e := Edge(id, edgeType, from, to, map[]);
      FreeClaimAll(edgeFree, edges, id, e);
      LiveResized(edges, id + 1);
      assert id < |edges| ==> edgeFree + Range(|edges|, id) == edgeFree && Resized(edges, id + 1) == edges;
      if id >= |edges| {
        edgeFree := edgeFree + Range(|edges|, id);
        edges := Resized(edges, id + 1);
      }
      edgeFree := Without(edgeFree, id);
      LivePut(edges, id, e);
      edges := edges[id := Some(Edge(id, edgeType, from, to, map[]))];
      LinkEdge(g, id, from, to, edgeType);
      r := Ok(id);
    }

    method DeleteEdge(id: EdgeId) returns (r: Option<Edge>)
      requires Valid()
      modifies this
      ensures Valid() && Abs() == DropEdge(old(Abs()), id) && r == Get(old(Abs()).edges, id)
    {
      hide Live, WellFormed, Adjacent, FreeSome, FreeAll, Indexed, Tidy, Out, In;
      ghost var g := Abs();
      LiveAt(edges, id);
      if !(id < |edges| && edges[id].Some?) {
        assert DropEdge(g, id) == g;
        return None;
      }
      r := edges[id];
      LiveTake(edges, id);
      CountTake(g.edges, id);
      FreeAllPush(edgeFree, edges, id);
      DropEdgeWellFormed(g, id);
      edges := edges[id := None];
      UnlinkEdge(g, id, r.value);
      edgeFree := edgeFree + [id];
      edgeCount := edgeCount - 1;
    }

    /** Take an edge out of the adjacency sets of its ends. */
    method UnlinkEdge(ghost g: Graph, id: EdgeId, e: Edge)
      requires WellFormed(g) && id in g.edges && e == g.edges[id] && Live(nodes) == g.nodes
      requires Adjacent(outgoing, incoming, g) && |outgoing| == |incoming| == |nodes|
      modifies this`outgoing, this`incoming
      ensures Adjacent(outgoing, incoming, DropEdge(g, id)) && |outgoing| == |incoming| == |nodes|
    {
      hide Live, WellFormed, Adjacent, Out, In;
      LiveBelow(nodes);
      EndsLive(g, id);
      AdjacentDropEdge(outgoing, incoming, g, id);
      if e.from < |outgoing| {
        outgoing := outgoing[e.from := outgoing[e.from] - {id}];
      }
      if e.to < |incoming| {
        incoming := incoming[e.to := incoming[e.to] - {id}];
      }
    }

    /** Write a live node back with other labels or properties. */
    method WriteNode(id: NodeId, n: Node)
      requires Structure() && id in Abs().nodes
      requires n.id == id
      modifies this`nodes
      ensures Structure() && Abs() == Graph(old(Abs()).nodes[id := n], old(Abs()).edges)
    {
      ghost var g := Abs();
      LiveAt(nodes, id);
      assert WellFormed(Graph(g.nodes[id := n], g.edges));
      hide Live, WellFormed, Adjacent, FreeSome, FreeAll;
      LivePut(nodes, id, n);
      FreeOverwrite(nodeFree, nodes, id, n);
      CountPut(g.nodes, id, n);
      AdjacentSame(outgoing, incoming, g, Graph(g.nodes[id := n], g.edges));
      nodes := nodes[id := Some(n)];
    }

    method WriteEdgeProperties(id: EdgeId, properties: Properties)
      requires Valid() && id in Abs().edges
      modifies this`edges
      ensures Valid() && Abs() == PutEdgeProperties(old(Abs()), id, properties)
    {
      ghost var g := Abs();
      LiveAt(edges, id);
      hide Live, WellFormed, Adjacent, FreeSome, FreeAll, Indexed, Tidy, Out, In;
      var e := edges[id].value.(properties := properties);
      LivePut(edges, id, e);
      FreeAllSome(edgeFree, edges);
      FreeOverwrite(edgeFree, edges, id, e);
      CountPut(g.edges, id, e);
      PutWellFormed(g, 0, id, properties, []);
      AdjacentSame(outgoing, incoming, g, PutEdgeProperties(g, id, properties));
      edges := edges[id := Some(e)];
    }

    /** Add a label and file the node under it. The index keeps agreeing with the nodes exactly when the
        label is not empty, or the node is absent or already has it. */
    method AddNodeLabel(id: NodeId, name: string)
      requires Valid()
      modifies this
      ensures Structure() && Abs() == AddLabel(old(Abs()), id, name)
      ensures name != "" ==> NodeLabel(old(Abs()), Abs(), id, name, true)
      ensures Valid() <==> name != "" || id !in old(Abs()).nodes || name in old(Abs()).nodes[id].labels
    {
      LabelReads(Abs(), id, name);
      hide Live, WellFormed, Adjacent, FreeSome, FreeAll, Indexed, Tidy, Out, In;
      ghost var g := Abs();
      LiveAt(nodes, id);
      if id < |nodes| && nodes[id].Some? {
        var n := nodes[id].value;
        if name in n.labels {
          PutSame(g, id);
        } else {
          IndexedAfterAddLabel(labelIndex, g.nodes, id, name);
          TidyFiled(labelIndex, id, name);
          NodeIds(g, id);
          WriteNode(id, n.(labels := WithLabel(n.labels, name)));
          labelIndex := Filed(labelIndex, id, name);
        }
      }
    }

    method RemoveNodeLabel(id: NodeId, name: string)
      requires Valid()
      modifies this
      ensures Valid() && Abs() == RemoveLabel(old(Abs()), id, name)
      ensures NodeLabel(old(Abs()), Abs(), id, name, false)
    {
      LabelReads(Abs(), id, name);
      hide Live, WellFormed, Adjacent, FreeSome, FreeAll, Indexed, Tidy, Out, In;
      ghost var g := Abs();
      LiveAt(nodes, id);
      if id < |nodes| && nodes[id].Some? {
        var n := nodes[id].value;
        if name in n.labels {
          IndexedAfterRemoveLabel(labelIndex, g.nodes, id, name, true);
          TidyUnfiled(labelIndex, id, name);
          NodeIds(g, id);
          WriteNode(id, n.(labels := Without(n.labels, name)));
          labelIndex := Unfiled(labelIndex, id, name, true);
        } else {
          WithoutAbsent(n.labels, name);
          PutSame(g, id);
        }
      }
    }

    method SetNodeProperty(id: NodeId, key: string, value: PropertyValue)
      requires Valid()
      modifies this
      ensures Valid() && Abs() == GraphOps.SetNodeProperty(old(Abs()), id, key, value)
      ensures NodeKey(old(Abs()), Abs(), id, key, Some(value))
    {
      PropertyReads(Abs(), id, id, key, value);
      hide Live, WellFormed, Adjacent, FreeSome, FreeAll, Indexed, Tidy, Out, In;
      ghost var g := Abs();
      LiveAt(nodes, id);
      if id < |nodes| && nodes[id].Some? {
        var n := nodes[id].value;
        IndexedSameLabels(labelIndex, g.nodes, id, n.properties[key := value]);
        NodeIds(g, id);
        WriteNode(id, n.(properties := n.properties[key := value]));
      }
    }

    method RemoveNodeProperty(id: NodeId, key: string) returns (r: Option<PropertyValue>)
      requires Valid()
      modifies this
      ensures Valid() && Abs() == GraphOps.RemoveNodeProperty(old(Abs()), id, key)
      ensures NodeKey(old(Abs()), Abs(), id, key, None)
      ensures r == Get(NodeProperties(old(Abs()), id), key)
    {
      PropertyReads(Abs(), id, id, key, Null);
      hide Live, WellFormed, Adjacent, FreeSome, FreeAll, Indexed, Tidy, Out, In;
      ghost var g := Abs();
      LiveAt(nodes, id);
      r := None;
      if id < |nodes| && nodes[id].Some? {
        var n := nodes[id].value;
        r := Get(n.properties, key);
        IndexedSameLabels(labelIndex, g.nodes, id, n.properties - {key});
        NodeIds(g, id);
        WriteNode(id, n.(properties := n.properties - {key}));
      }
    }

    method SetEdgeProperty(id: EdgeId, key: string, value: PropertyValue)
      requires Valid()
      modifies this
      ensures Valid() && Abs() == GraphOps.SetEdgeProperty(old(Abs()), id, key, value)
      ensures EdgeKey(old(Abs()), Abs(), id, key, Some(value))
    {
      PropertyReads(Abs(), id, id, key, value);
      hide Live, WellFormed, Adjacent, FreeSome, FreeAll, Indexed, Tidy, Out, In;
      LiveAt(edges, id);
      if id < |edges| && edges[id].Some? {
        WriteEdgeProperties(id, edges[id].value.properties[key := value]);
      }
    }

    method RemoveEdgeProperty(id: EdgeId, key: string) returns (r: Option<PropertyValue>)
      requires Valid()
      modifies this
      ensures Valid() && Abs() == GraphOps.RemoveEdgeProperty(old(Abs()), id, key)
      ensures EdgeKey(old(Abs()), Abs(), id, key, None)
      ensures r == Get(EdgeProperties(old(Abs()), id), key)
    {
      PropertyReads(Abs(), id, id, key, Null);
      hide Live, WellFormed, Adjacent, FreeSome, FreeAll, Indexed, Tidy, Out, In;
      LiveAt(edges, id);
      r := None;
      if id < |edges| && edges[id].Some? {
        r := Get(edges[id].value.properties, key);
        WriteEdgeProperties(id, edges[id].value.properties - {key});
      }
    }
  }

  function OneLabel(name: string): seq<string> { if name == "" then [] else [name] }

  lemma LiveBelow<T>(slots: seq<Option<T>>)
    ensures forall i :: i in Live(slots) ==> i < |slots|
  {
  }

  lemma AdjacentAt(outgoing: Adjacency, incoming: Adjacency, g: Graph, v: NodeId)
    requires Adjacent(outgoing, incoming, g) && v < |outgoing|
    ensures outgoing[v] == Out(g, v) && v < |incoming| && incoming[v] == In(g, v)
  {
  }

  lemma AtNode(g: Graph, v: NodeId, e: EdgeId)
    requires WellFormed(g) && (e in Out(g, v) || e in In(g, v))
    ensures e in g.edges && g.edges[e].from in g.nodes && g.edges[e].to in g.nodes
  {
  }

  lemma FreeAllSome<T>(free: seq<nat>, slots: seq<Option<T>>)
    requires FreeAll(free, slots)
    ensures FreeSome(free, slots)
  {
  }

  lemma FreeAllPush<T>(free: seq<nat>, slots: seq<Option<T>>, i: nat)
    requires FreeAll(free, slots) && i < |slots| && slots[i].Some?
    ensures FreeAll(free + [i], slots[i := None])
  {
    FreePush(free, slots, i);
  }

  lemma EndsLive(g: Graph, e: EdgeId)
    requires WellFormed(g)
    ensures e in g.edges ==> g.edges[e].from in g.nodes && g.edges[e].to in g.nodes
  {
  }

  lemma NodeIds(g: Graph, v: NodeId)
    requires WellFormed(g) && v in g.nodes
    ensures g.nodes[v].id == v
  {
  }
}
