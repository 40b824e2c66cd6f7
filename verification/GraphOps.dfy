/**
  What each operation of a graph backend means for the stored multigraph. Both
  stores are proved against these functions, and rollback is argued on them.
 */
module GraphOps {
  import opened Collections
  import opened Multigraph

  type Nodes = map<NodeId, Node>
  type Edges = map<EdgeId, Edge>

  datatype GraphError = NodeNotFound(id: NodeId)
  datatype Result<+T> = Ok(value: T) | Err(error: GraphError)

  function Incident(g: Graph, v: NodeId): set<EdgeId> { Out(g, v) + In(g, v) }

  function AddNode(g: Graph, id: NodeId, labels: seq<string>): Graph {
    Graph(g.nodes[id := Node(id, labels, map[])], g.edges)
  }

  /** A node goes together with the edges at it. */
  function DropNode(g: Graph, v: NodeId): Graph {
    if v in g.nodes then Graph(g.nodes - {v}, g.edges - Incident(g, v)) else g
  }

  function AddEdge(g: Graph, id: EdgeId, from: NodeId, to: NodeId, edgeType: string): Graph {
    Graph(g.nodes, g.edges[id := Edge(id, edgeType, from, to, map[])])
  }

  function DropEdge(g: Graph, e: EdgeId): Graph { Graph(g.nodes, g.edges - {e}) }

  function PutNodeProperties(g: Graph, v: NodeId, properties: Properties): Graph {
    if v in g.nodes then Graph(g.nodes[v := g.nodes[v].(properties := properties)], g.edges) else g
  }

  function PutEdgeProperties(g: Graph, e: EdgeId, properties: Properties): Graph {
    if e in g.edges then Graph(g.nodes, g.edges[e := g.edges[e].(properties := properties)]) else g
  }

  function PutLabels(g: Graph, v: NodeId, labels: seq<string>): Graph {
    if v in g.nodes then Graph(g.nodes[v := g.nodes[v].(labels := labels)], g.edges) else g
  }

  function NodeProperties(g: Graph, v: NodeId): Properties {
    if v in g.nodes then g.nodes[v].properties else map[]
  }

  function EdgeProperties(g: Graph, e: EdgeId): Properties {
    if e in g.edges then g.edges[e].properties else map[]
  }

  function Labels(g: Graph, v: NodeId): seq<string> {
    if v in g.nodes then g.nodes[v].labels else []
  }

  function SetNodeProperty(g: Graph, v: NodeId, key: string, value: PropertyValue): Graph {
    PutNodeProperties(g, v, NodeProperties(g, v)[key := value])
  }

  function RemoveNodeProperty(g: Graph, v: NodeId, key: string): Graph {
    PutNodeProperties(g, v, NodeProperties(g, v) - {key})
  }

  function SetEdgeProperty(g: Graph, e: EdgeId, key: string, value: PropertyValue): Graph {
    PutEdgeProperties(g, e, EdgeProperties(g, e)[key := value])
  }

  function RemoveEdgeProperty(g: Graph, e: EdgeId, key: string): Graph {
    PutEdgeProperties(g, e, EdgeProperties(g, e) - {key})
  }

  /** A node takes a label at most once and never the empty one. */
  function WithLabel(labels: seq<string>, l: string): seq<string> {
    if l != "" && l !in labels then labels + [l] else labels
  }

  function AddLabel(g: Graph, v: NodeId, l: string): Graph {
    PutLabels(g, v, WithLabel(Labels(g, v), l))
  }

  function RemoveLabel(g: Graph, v: NodeId, l: string): Graph {
    PutLabels(g, v, Without(Labels(g, v), l))
  }

  function Get<K, V>(m: map<K, V>, k: K): Option<V> { if k in m then Some(m[k]) else None }

  // ----------------------------------------------------- what is read after a write

  /** Nothing but the record of node v may differ. */
  ghost predicate OnlyNode(g: Graph, h: Graph, v: NodeId) {
    && h.edges == g.edges && h.nodes.Keys == g.nodes.Keys
    && forall u :: u in g.nodes && u != v ==> h.nodes[u] == g.nodes[u]
  }

  /** Nothing but the record of edge e may differ. */
  ghost predicate OnlyEdge(g: Graph, h: Graph, e: EdgeId) {
    && h.nodes == g.nodes && h.edges.Keys == g.edges.Keys
    && forall f :: f in g.edges && f != e ==> h.edges[f] == g.edges[f]
  }

  /** The key now holds the value, or nothing; every other key is as before. */
  ghost predicate OnlyKey(before: Properties, after: Properties, key: string, value: Option<PropertyValue>) {
    && (key in after <==> value.Some?) && (value.Some? ==> after[key] == value.value)
    && forall k :: k != key ==> (k in after <==> k in before) && (k in before ==> after[k] == before[k])
  }

  /** In node v of g the key now holds the value, or nothing, and nothing else changed. */
  ghost predicate NodeKey(g: Graph, h: Graph, v: NodeId, key: string, value: Option<PropertyValue>) {
    && OnlyNode(g, h, v)
    && (v in g.nodes ==>
          && h.nodes[v].id == g.nodes[v].id && h.nodes[v].labels == g.nodes[v].labels
          && OnlyKey(g.nodes[v].properties, h.nodes[v].properties, key, value))
  }

  /** In edge e of g the key now holds the value, or nothing, and nothing else changed. */
  ghost predicate EdgeKey(g: Graph, h: Graph, e: EdgeId, key: string, value: Option<PropertyValue>) {
    && OnlyEdge(g, h, e)
    && (e in g.edges ==>
          && h.edges[e].id == g.edges[e].id && h.edges[e].edgeType == g.edges[e].edgeType
          && h.edges[e].from == g.edges[e].from && h.edges[e].to == g.edges[e].to
          && OnlyKey(g.edges[e].properties, h.edges[e].properties, key, value))
  }

  /** Node v now carries the label, or no longer does; its other labels stay as often and in the same order. */
  ghost predicate NodeLabel(g: Graph, h: Graph, v: NodeId, l: string, carried: bool) {
    && OnlyNode(g, h, v)
    && (v in g.nodes ==>
          && h.nodes[v].id == g.nodes[v].id && h.nodes[v].properties == g.nodes[v].properties
          && (l in h.nodes[v].labels <==> carried)
          && Without(h.nodes[v].labels, l) == Without(g.nodes[v].labels, l)
          && (carried ==>
                h.nodes[v].labels == g.nodes[v].labels + if l in g.nodes[v].labels then [] else [l]))
  }

  lemma PropertyReads(g: Graph, v: NodeId, e: EdgeId, key: string, value: PropertyValue)
    ensures NodeKey(g, SetNodeProperty(g, v, key, value), v, key, Some(value))
    ensures NodeKey(g, RemoveNodeProperty(g, v, key), v, key, None)
    ensures EdgeKey(g, SetEdgeProperty(g, e, key, value), e, key, Some(value))
    ensures EdgeKey(g, RemoveEdgeProperty(g, e, key), e, key, None)
  {
  }

  lemma LabelReads(g: Graph, v: NodeId, l: string)
    ensures l != "" ==> NodeLabel(g, AddLabel(g, v, l), v, l, true)
    ensures NodeLabel(g, RemoveLabel(g, v, l), v, l, false)
    ensures l == "" ==> AddLabel(g, v, l) == g
  {
    hide Without, WithLabel;
    LabelLists(Labels(g, v), l);
  }

  lemma LabelLists(labels: seq<string>, l: string)
    ensures l != "" ==> l in WithLabel(labels, l)
    ensures l != "" ==> WithLabel(labels, l) == labels + if l in labels then [] else [l]
    ensures Without(WithLabel(labels, l), l) == Without(labels, l)
    ensures l !in Without(labels, l) && Without(Without(labels, l), l) == Without(labels, l)
    ensures l == "" ==> WithLabel(labels, l) == labels
  {
    WithoutAll(labels, l);
    WithoutAbsent(Without(labels, l), l);
    WithoutJoin(labels, [l], l);
    assert Without([l], l) == [];
  }

  // ------------------------------------------------- every operation keeps well-formedness

  lemma AddNodeWellFormed(g: Graph, id: NodeId, labels: seq<string>)
    requires WellFormed(g)
    ensures WellFormed(AddNode(g, id, labels))
  {
  }

  lemma DropNodeWellFormed(g: Graph, v: NodeId)
    requires WellFormed(g)
    ensures WellFormed(DropNode(g, v))
  {
  }

  lemma AddEdgeWellFormed(g: Graph, id: EdgeId, from: NodeId, to: NodeId, edgeType: string)
    requires WellFormed(g) && from in g.nodes && to in g.nodes
    ensures WellFormed(AddEdge(g, id, from, to, edgeType))
  {
  }

  lemma DropEdgeWellFormed(g: Graph, e: EdgeId)
    requires WellFormed(g)
    ensures WellFormed(DropEdge(g, e))
  {
  }

  lemma PutWellFormed(g: Graph, v: NodeId, e: EdgeId, properties: Properties, labels: seq<string>)
    requires WellFormed(g)
    ensures WellFormed(PutNodeProperties(g, v, properties))
    ensures WellFormed(PutEdgeProperties(g, e, properties))
    ensures WellFormed(PutLabels(g, v, labels))
  {
  }

  // --------------------------------------------------------------- adjacency after a step

  lemma SameEdgesSameAdjacency(g: Graph, h: Graph, v: NodeId)
    requires g.edges == h.edges
    ensures Out(g, v) == Out(h, v) && In(g, v) == In(h, v)
  {
  }

  lemma AdjacencyAddEdge(g: Graph, id: EdgeId, from: NodeId, to: NodeId, edgeType: string, v: NodeId)
    requires id !in g.edges
    ensures var h := AddEdge(g, id, from, to, edgeType);
      && Out(h, v) == (if v == from then Out(g, v) + {id} else Out(g, v))
      && In(h, v) == (if v == to then In(g, v) + {id} else In(g, v))
  {
  }

  lemma AdjacencyDrop(g: Graph, gone: set<EdgeId>, nodes: Nodes, v: NodeId)
    ensures Out(Graph(nodes, g.edges - gone), v) == Out(g, v) - gone
    ensures In(Graph(nodes, g.edges - gone), v) == In(g, v) - gone
  {
  }

  lemma AdjacencyPut(g: Graph, e: EdgeId, properties: Properties, v: NodeId)
    ensures var h := PutEdgeProperties(g, e, properties); Out(h, v) == Out(g, v) && In(h, v) == In(g, v)
  {
  }

  lemma PutSame(g: Graph, v: NodeId)
    ensures PutLabels(g, v, Labels(g, v)) == g
  {
  }

  lemma DeadHasNoEdges(g: Graph, v: NodeId)
    requires WellFormed(g) && v !in g.nodes
    ensures Out(g, v) == {} && In(g, v) == {}
  {
  }
}
