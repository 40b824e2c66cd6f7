/** The interface both stores offer, and why a client cannot tell them apart. */
module Backend {
  import opened Collections
  import opened Multigraph
  import opened GraphOps
  import opened LabelIndex
  import Slots
  import GraphStore
  import ConcurrentGraph

  datatype Command =
    | CreateNode(labels: seq<string>)
    | CreateEdge(from: NodeId, to: NodeId, edgeType: string)
    | DeleteNode(v: NodeId)
    | DeleteEdge(e: EdgeId)
    | SetNodeProperty(v: NodeId, key: string, value: PropertyValue)
    | RemoveNodeProperty(v: NodeId, key: string)
    | AddLabel(v: NodeId, name: string)
    | RemoveLabel(v: NodeId, name: string)
    | SetEdgeProperty(e: EdgeId, key: string, value: PropertyValue)
    | RemoveEdgeProperty(e: EdgeId, key: string)
    | RestoreNode(v: NodeId, labels: seq<string>)
    | RestoreEdge(e: EdgeId, from: NodeId, to: NodeId, edgeType: string)

  /** The effect of a command when a create takes the id `id`. */
  function Apply(g: Graph, c: Command, id: nat): Graph {
    match c
    case CreateNode(labels) => AddNode(g, id, labels)
    case CreateEdge(from, to, t) => if from in g.nodes && to in g.nodes then AddEdge(g, id, from, to, t) else g
    case DeleteNode(v) => DropNode(g, v)
    case DeleteEdge(e) => DropEdge(g, e)
    case SetNodeProperty(v, key, value) => GraphOps.SetNodeProperty(g, v, key, value)
    case RemoveNodeProperty(v, key) => GraphOps.RemoveNodeProperty(g, v, key)
    case AddLabel(v, name) => GraphOps.AddLabel(g, v, name)
    case RemoveLabel(v, name) => GraphOps.RemoveLabel(g, v, name)
    case SetEdgeProperty(e, key, value) => GraphOps.SetEdgeProperty(g, e, key, value)
    case RemoveEdgeProperty(e, key) => GraphOps.RemoveEdgeProperty(g, e, key)
    case RestoreNode(v, labels) => AddNode(g, v, labels)
    case RestoreEdge(e, from, to, t) => if from in g.nodes && to in g.nodes then AddEdge(g, e, from, to, t) else g
  }

  /** Labels are not empty, and only what is not live is restored. */
  ghost predicate Allowed(g: Graph, c: Command) {
    && (c.AddLabel? ==> c.name != "")
    && (c.RestoreNode? ==> c.v !in g.nodes)
    && (c.RestoreEdge? ==> c.e !in g.edges)
  }

  /** A create takes an id that is not live. */
  ghost predicate Picks(g: Graph, c: Command, id: nat) {
    && (c.CreateNode? ==> id !in g.nodes)
    && (c.CreateEdge? && c.from in g.nodes && c.to in g.nodes ==> id !in g.edges)
  }

  lemma ApplyWellFormed(g: Graph, c: Command, id: nat)
    requires WellFormed(g)
    ensures WellFormed(Apply(g, c, id))
  {
    hide WellFormed;
    match c
    case CreateNode(labels) => AddNodeWellFormed(g, id, labels);
    case CreateEdge(from, to, t) => if from in g.nodes && to in g.nodes { AddEdgeWellFormed(g, id, from, to, t); }
    case DeleteNode(v) => DropNodeWellFormed(g, v);
    case DeleteEdge(e) => DropEdgeWellFormed(g, e);
    case SetNodeProperty(v, key, value) => PutWellFormed(g, v, 0, NodeProperties(g, v)[key := value], []);
    case RemoveNodeProperty(v, key) => PutWellFormed(g, v, 0, NodeProperties(g, v) - {key}, []);
    case AddLabel(v, name) => PutWellFormed(g, v, 0, map[], WithLabel(Labels(g, v), name));
    case RemoveLabel(v, name) => PutWellFormed(g, v, 0, map[], Without(Labels(g, v), name));
    case SetEdgeProperty(e, key, value) => PutWellFormed(g, 0, e, EdgeProperties(g, e)[key := value], []);
    case RemoveEdgeProperty(e, key) => PutWellFormed(g, 0, e, EdgeProperties(g, e) - {key}, []);
    case RestoreNode(v, labels) => AddNodeWellFormed(g, v, labels);
    case RestoreEdge(e, from, to, t) => if from in g.nodes && to in g.nodes { AddEdgeWellFormed(g, e, from, to, t); }
  }

  /** One of the two stores. */
  datatype Backend = Slotted(store: GraphStore.GraphStore) | Shared(shared: ConcurrentGraph.ConcurrentGraph) {

    ghost function Objects(): set<object> {
      match this
      case Slotted(store) => {store}
      case Shared(shared) => {shared}
    }

    ghost function Abs(): Graph
      reads Objects()
    {
      match this
      case Slotted(store) => store.Abs()
      case Shared(shared) => shared.Abs()
    }

    ghost predicate Valid()
      reads Objects()
    {
      match this
      case Slotted(store) => store.Valid()
      case Shared(shared) => shared.Valid()
    }

    lemma ValidWellFormed()
      requires Valid()
      ensures WellFormed(Abs())
    {
      hide WellFormed, GraphStore.Adjacent, ConcurrentGraph.Adjacent, Indexed;
    }

    method GetNode(v: NodeId) returns (r: Option<Node>)
      requires Valid()
      ensures r == Get(Abs().nodes, v)
    {
      match this
      case Slotted(store) => r := store.GetNode(v);
      case Shared(shared) => r := Get(shared.nodes, v);
    }

    method GetEdge(e: EdgeId) returns (r: Option<Edge>)
      requires Valid()
      ensures r == Get(Abs().edges, e)
    {
      match this
      case Slotted(store) => r := store.GetEdge(e);
      case Shared(shared) => r := Get(shared.edges, e);
    }

    method OutgoingIds(v: NodeId) returns (r: set<EdgeId>)
      requires Valid()
      ensures r == Out(Abs(), v)
    {
      match this
      case Slotted(store) => r := store.OutgoingEdges(v);
      case Shared(shared) => r := shared.OutgoingEdges(v);
    }

    method IncomingIds(v: NodeId) returns (r: set<EdgeId>)
      requires Valid()
      ensures r == In(Abs(), v)
    {
      match this
      case Slotted(store) => r := store.IncomingEdges(v);
      case Shared(shared) => r := shared.IncomingEdges(v);
    }

    /** Whether a command is one the stores agree on. */
    method Admits(c: Command) returns (ok: bool)
      requires Valid()
      ensures ok <==> Allowed(Abs(), c)
    {
      match this
      case Slotted(store) =>
        var id := if c.RestoreNode? then c.v else if c.RestoreEdge? then c.e else 0;
        Slots.LiveAt(store.nodes, id);
        Slots.LiveAt(store.edges, id);
        ok := && !(c.AddLabel? && c.name == "")
              && !(c.RestoreNode? && id < |store.nodes| && store.nodes[id].Some?)
              && !(c.RestoreEdge? && id < |store.edges| && store.edges[id].Some?);
      case Shared(shared) =>
        ok := && !(c.AddLabel? && c.name == "")
              && !(c.RestoreNode? && c.v in shared.nodes)
              && !(c.RestoreEdge? && c.e in shared.edges);
    }

    /** Every command on either store has the same effect on the stored multigraph and keeps the store's
        invariant, so it holds after every run. */
    method Execute(c: Command) returns (id: nat)
      requires Valid() && Allowed(Abs(), c)
      modifies Objects()
      ensures Valid() && Picks(old(Abs()), c, id) && Abs() == Apply(old(Abs()), c, id)
    {
      match this
      case Slotted(store) => id := ExecuteSlotted(store, c);
      case Shared(shared) => id := ExecuteShared(shared, c);
    }
  }

  method ExecuteSlotted(b: GraphStore.GraphStore, c: Command) returns (id: nat)
    requires b.Valid() && Allowed(b.Abs(), c)
    modifies b
    ensures b.Valid() && Picks(old(b.Abs()), c, id) && b.Abs() == Apply(old(b.Abs()), c, id)
  {
    hide WellFormed, Indexed, Tidy, GraphStore.Adjacent, Out, In, Slots.Live, Slots.FreeSome, Slots.FreeAll;
    hide AddNode, DropNode, AddEdge, DropEdge, GraphOps.SetNodeProperty, GraphOps.RemoveNodeProperty;
    hide GraphOps.AddLabel, GraphOps.RemoveLabel, GraphOps.SetEdgeProperty, GraphOps.RemoveEdgeProperty;
    id := 0;
    match c
    case CreateNode(labels) =>
      id := b.CreateNodeWithLabels(labels);
    case CreateEdge(from, to, t) =>
      var r := b.CreateEdge(from, to, t);
      if r.Ok? {
        id := r.value;
      }
    case DeleteNode(v) =>
      var _ := b.DeleteNode(v);
    case DeleteEdge(e) =>
      var _ := b.DeleteEdge(e);
    case SetNodeProperty(v, key, value) =>
      b.SetNodeProperty(v, key, value);
    case RemoveNodeProperty(v, key) =>
      var _ := b.RemoveNodeProperty(v, key);
    case AddLabel(v, name) =>
      b.AddNodeLabel(v, name);
    case RemoveLabel(v, name) =>
      b.RemoveNodeLabel(v, name);
    case SetEdgeProperty(e, key, value) =>
      b.SetEdgeProperty(e, key, value);
    case RemoveEdgeProperty(e, key) =>
      var _ := b.RemoveEdgeProperty(e, key);
    case RestoreNode(v, labels) =>
      b.CreateNodeWithIdAndLabels(v, labels);
    case RestoreEdge(e, from, to, t) =>
      var _ := b.CreateEdgeWithId(e, from, to, t);
  }

  method ExecuteShared(b: ConcurrentGraph.ConcurrentGraph, c: Command) returns (id: nat)
    requires b.Valid() && Allowed(b.Abs(), c)
    modifies b
    ensures b.Valid() && Picks(old(b.Abs()), c, id) && b.Abs() == Apply(old(b.Abs()), c, id)
  {
    hide WellFormed, Indexed, Tidy, ConcurrentGraph.Adjacent, ConcurrentGraph.Below, Out, In;
    hide AddNode, DropNode, AddEdge, DropEdge, GraphOps.SetNodeProperty, GraphOps.RemoveNodeProperty;
    hide GraphOps.AddLabel, GraphOps.RemoveLabel, GraphOps.SetEdgeProperty, GraphOps.RemoveEdgeProperty;
    id := 0;
    match c
    case CreateNode(labels) =>
      id := b.CreateNodeWithLabels(labels);
    case CreateEdge(from, to, t) =>
      var r := b.CreateEdge(from, to, t);
      if r.Ok? {
        id := r.value;
      }
    case DeleteNode(v) =>
      var _ := b.DeleteNode(v);
    case DeleteEdge(e) =>
      var _ := b.DeleteEdge(e);
    case SetNodeProperty(v, key, value) =>
      b.SetNodeProperty(v, key, value);
    case RemoveNodeProperty(v, key) =>
      var _ := b.RemoveNodeProperty(v, key);
    case AddLabel(v, name) =>
      b.AddNodeLabel(v, name);
    case RemoveLabel(v, name) =>
      b.RemoveNodeLabel(v, name);
    case SetEdgeProperty(e, key, value) =>
      b.SetEdgeProperty(e, key, value);
    case RemoveEdgeProperty(e, key) =>
      var _ := b.RemoveEdgeProperty(e, key);
    case RestoreNode(v, labels) =>
      b.CreateNodeWithIdAndLabels(v, labels);
    case RestoreEdge(e, from, to, t) =>
      var _ := b.CreateEdgeWithId(e, from, to, t);
  }
}
