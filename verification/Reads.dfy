/**
  What a client reads back. Every property of a node or edge and every label of a node is a cell; after any run
  of commands on either store, a cell holds what the last command that bears on it left there.
 */
module Reads {
  import opened Collections
  import opened Multigraph
  import opened GraphOps
  import opened Backend
  import Slots
  import LabelIndex
  import GraphStore
  import ConcurrentGraph
  import I = Isomorphism

  datatype Cell =
    | NodeCell(v: NodeId, key: string)
    | EdgeCell(e: EdgeId, key: string)
    | LabelCell(v: NodeId, name: string)

  /** What a cell holds: nothing since its node or edge is not live, nothing, a value, or the label. */
  datatype Content = Missing | Unset | Holds(value: PropertyValue) | Carried

  function ReadIn(p: Properties, key: string): Content { if key in p then Holds(p[key]) else Unset }

  function Read(g: Graph, cell: Cell): Content {
    match cell
    case NodeCell(v, key) => if v in g.nodes then ReadIn(g.nodes[v].properties, key) else Missing
    case EdgeCell(e, key) => if e in g.edges then ReadIn(g.edges[e].properties, key) else Missing
    case LabelCell(v, name) =>
      if v !in g.nodes then Missing else if name in g.nodes[v].labels then Carried else Unset
  }

  // ------------------------------------------------------------- which commands bear on a cell

  ghost predicate MakesNode(c: Command, id: nat, v: NodeId) {
    (c.CreateNode? && id == v) || (c.RestoreNode? && c.v == v)
  }

  ghost predicate MakesEdge(g: Graph, c: Command, id: nat, e: EdgeId) {
    && ((c.CreateEdge? && id == e) || (c.RestoreEdge? && c.e == e))
    && c.from in g.nodes && c.to in g.nodes
  }

  ghost predicate DropsEdge(g: Graph, c: Command, e: EdgeId) {
    || (c.DeleteEdge? && c.e == e)
    || (c.DeleteNode? && c.v in g.nodes && e in g.edges && (g.edges[e].from == c.v || g.edges[e].to == c.v))
  }

  ghost predicate BearsOn(g: Graph, c: Command, id: nat, cell: Cell) {
    match cell
    case NodeCell(v, key) =>
      || MakesNode(c, id, v) || (c.DeleteNode? && c.v == v)
      || ((c.SetNodeProperty? || c.RemoveNodeProperty?) && c.v == v && c.key == key)
    case EdgeCell(e, key) =>
      || MakesEdge(g, c, id, e) || DropsEdge(g, c, e)
      || ((c.SetEdgeProperty? || c.RemoveEdgeProperty?) && c.e == e && c.key == key)
    case LabelCell(v, name) =>
      || MakesNode(c, id, v) || (c.DeleteNode? && c.v == v)
      || ((c.AddLabel? || c.RemoveLabel?) && c.v == v && c.name == name)
  }

  /** What a command that bears on a cell leaves in it: a write to what is not live is lost. */
  ghost function Left(g: Graph, c: Command, cell: Cell): Content {
    match c
    case SetNodeProperty(v, _, value) => if v in g.nodes then Holds(value) else Missing
    case SetEdgeProperty(e, _, value) => if e in g.edges then Holds(value) else Missing
    case RemoveNodeProperty(v, _) => if v in g.nodes then Unset else Missing
    case RemoveEdgeProperty(e, _) => if e in g.edges then Unset else Missing
    case AddLabel(v, _) => if v in g.nodes then Carried else Missing
    case RemoveLabel(v, _) => if v in g.nodes then Unset else Missing
    case DeleteNode(_) => Missing
    case DeleteEdge(_) => Missing
    case CreateNode(labels) => if cell.LabelCell? && cell.name in labels then Carried else Unset
    case RestoreNode(_, labels) => if cell.LabelCell? && cell.name in labels then Carried else Unset
    case CreateEdge(_, _, _) => Unset
    case RestoreEdge(_, _, _, _) => Unset
  }

  // ------------------------------------------------------------------------------- one command

  lemma OthersUntouched(g: Graph, c: Command, id: nat, cell: Cell)
    requires !BearsOn(g, c, id, cell)
    ensures Read(Apply(g, c, id), cell) == Read(g, cell)
  {
    match c
    case SetNodeProperty(v, key, value) => PropertyReads(g, v, 0, key, value);
    case RemoveNodeProperty(v, key) => PropertyReads(g, v, 0, key, Null);
    case SetEdgeProperty(e, key, value) => PropertyReads(g, 0, e, key, value);
    case RemoveEdgeProperty(e, key) => PropertyReads(g, 0, e, key, Null);
    case AddLabel(v, l) => OtherLabels(g, v, l);
    case RemoveLabel(v, l) => OtherLabels(g, v, l);
    case _ =>
  }

  lemma OtherLabels(g: Graph, v: NodeId, l: string)
    ensures forall name :: name != l ==>
      && (name in Labels(GraphOps.AddLabel(g, v, l), v) <==> name in Labels(g, v))
      && (name in Labels(GraphOps.RemoveLabel(g, v, l), v) <==> name in Labels(g, v))
  {
    var labels := Labels(g, v);
    WithoutAll(labels, l);
    forall name | name != l ensures name in Without(labels, l) <==> name in labels {
      assert name in multiset(Without(labels, l)) <==> name in multiset(labels);
    }
  }

  lemma LeavesContent(g: Graph, c: Command, id: nat, cell: Cell)
    requires Allowed(g, c) && BearsOn(g, c, id, cell)
    ensures Read(Apply(g, c, id), cell) == Left(g, c, cell)
  {
    match c
    case SetNodeProperty(v, key, value) => PropertyReads(g, v, 0, key, value);
    case RemoveNodeProperty(v, key) => PropertyReads(g, v, 0, key, Null);
    case SetEdgeProperty(e, key, value) => PropertyReads(g, 0, e, key, value);
    case RemoveEdgeProperty(e, key) => PropertyReads(g, 0, e, key, Null);
    case AddLabel(v, l) => LabelReads(g, v, l);
    case RemoveLabel(v, l) => LabelReads(g, v, l);
    case _ =>
  }

  /** A new edge carries its type, its ends in that order and no property; the other edges and all nodes are as
      before. */
  lemma NewEdgeReads(g: Graph, id: EdgeId, from: NodeId, to: NodeId, edgeType: string)
    requires id !in g.edges && from in g.nodes && to in g.nodes
    ensures var h := Apply(g, CreateEdge(from, to, edgeType), id);
      && h.nodes == g.nodes && h.edges.Keys == g.edges.Keys + {id}
      && h.edges[id].id == id && h.edges[id].edgeType == edgeType
      && h.edges[id].from == from && h.edges[id].to == to && h.edges[id].properties.Keys == {}
      && forall e :: e in g.edges ==> h.edges[e] == g.edges[e]
    ensures Apply(g, RestoreEdge(id, from, to, edgeType), 0) == Apply(g, CreateEdge(from, to, edgeType), id)
  {
  }

  /** An edge without a live node at each end is not made. */
  lemma NoDanglingEdge(g: Graph, id: EdgeId, from: NodeId, to: NodeId, edgeType: string)
    requires from !in g.nodes || to !in g.nodes
    ensures Apply(g, CreateEdge(from, to, edgeType), id) == g
    ensures Apply(g, RestoreEdge(id, from, to, edgeType), 0) == g
  {
  }

  /** A new node carries its labels in order and no property; the other nodes and all edges are as before. */
  lemma NewNodeReads(g: Graph, id: NodeId, labels: seq<string>)
    requires id !in g.nodes
    ensures var h := Apply(g, CreateNode(labels), id);
      && h.edges == g.edges && h.nodes.Keys == g.nodes.Keys + {id}
      && h.nodes[id].id == id && h.nodes[id].labels == labels && h.nodes[id].properties.Keys == {}
      && forall v :: v in g.nodes ==> h.nodes[v] == g.nodes[v]
    ensures Apply(g, RestoreNode(id, labels), 0) == Apply(g, CreateNode(labels), id)
  {
  }

  /** A deletion takes the node with exactly the edges at it, or exactly the edge. */
  lemma DeletionReads(g: Graph, v: NodeId, e: EdgeId)
    ensures var h := Apply(g, DeleteNode(v), 0);
      && h.nodes.Keys == g.nodes.Keys - {v} && (forall u :: u in h.nodes ==> h.nodes[u] == g.nodes[u])
      && (v in g.nodes ==> forall f :: f in h.edges <==> f in g.edges && g.edges[f].from != v && g.edges[f].to != v)
      && (forall f :: f in h.edges ==> f in g.edges && h.edges[f] == g.edges[f])
      && (v !in g.nodes ==> h == g)
    ensures var h := Apply(g, DeleteEdge(e), 0);
      && h.nodes == g.nodes && h.edges.Keys == g.edges.Keys - {e}
      && forall f :: f in h.edges ==> h.edges[f] == g.edges[f]
  {
  }

  // -------------------------------------------------------------------------------- whole runs

  ghost predicate BearsAt(t: I.Trace, n: nat, cell: Cell)
    requires I.IsRun(t) && n < |t.commands|
  {
    BearsOn(t.graphs[n], t.commands[n], t.ids[n], cell)
  }

  lemma {:induction false} KeptSince(t: I.Trace, i: nat, n: nat, cell: Cell)
    requires I.IsRun(t) && i <= n <= |t.commands|
    requires forall j :: i <= j < n ==> !BearsAt(t, j, cell)
    ensures Read(t.graphs[n], cell) == Read(t.graphs[i], cell)
    decreases n
  {
    hide Apply, Read;
    if i < n {
      KeptSince(t, i, n - 1, cell);
      assert I.StepAt(t, n - 1) && !BearsAt(t, n - 1, cell);
      OthersUntouched(t.graphs[n - 1], t.commands[n - 1], t.ids[n - 1], cell);
    }
  }

  /** At every point of every run a cell holds what the last command that bears on it left there. */
  lemma LastWriteIsRead(t: I.Trace, i: nat, n: nat, cell: Cell)
    requires I.IsRun(t) && i < n <= |t.commands| && BearsAt(t, i, cell)
    requires forall j :: i < j < n ==> !BearsAt(t, j, cell)
    ensures Read(t.graphs[n], cell) == Left(t.graphs[i], t.commands[i], cell)
  {
    hide Apply, Read, Left;
    assert I.StepAt(t, i);
    LeavesContent(t.graphs[i], t.commands[i], t.ids[i], cell);
    KeptSince(t, i + 1, n, cell);
  }

  /** A cell no command of the run bears on is missing. */
  lemma NeverWrittenIsMissing(t: I.Trace, n: nat, cell: Cell)
    requires I.IsRun(t) && n <= |t.commands|
    requires forall j :: 0 <= j < n ==> !BearsAt(t, j, cell)
    ensures Read(t.graphs[n], cell) == Missing
  {
    KeptSince(t, 0, n, cell);
  }

  /** Reading a cell through a store's own look-ups. */
  method Ask(b: Backend, cell: Cell) returns (r: Content)
    requires b.Valid()
    ensures r == Read(b.Abs(), cell)
  {
    match cell
    case NodeCell(v, key) =>
      var n := b.GetNode(v);
      r := if n.Some? then ReadIn(n.value.properties, key) else Missing;
    case EdgeCell(e, key) =>
      var f := b.GetEdge(e);
      r := if f.Some? then ReadIn(f.value.properties, key) else Missing;
    case LabelCell(v, name) =>
      var n := b.GetNode(v);
      r := if n.None? then Missing else if name in n.value.labels then Carried else Unset;
  }

  /** A value set on a live node is read back from either store, with everything else as before. */
  method SetAndGet(b: Backend, v: NodeId, key: string, value: PropertyValue) returns (r: Option<Node>)
    requires b.Valid()
    modifies b.Objects()
    ensures b.Valid() && NodeKey(old(b.Abs()), b.Abs(), v, key, Some(value))
    ensures r.Some? <==> v in old(b.Abs()).nodes
    ensures r.Some? ==> key in r.value.properties && r.value.properties[key] == value
    ensures r.Some? ==> r.value.labels == old(b.Abs()).nodes[v].labels
    ensures r.Some? ==> forall k :: k != key ==>
      Get(r.value.properties, k) == Get(old(b.Abs()).nodes[v].properties, k)
  {
    hide Apply, Allowed, Picks, NodeKey, WellFormed, LabelIndex.Indexed, LabelIndex.Tidy, GraphStore.Adjacent;
    hide ConcurrentGraph.Adjacent, ConcurrentGraph.Below, Slots.Live, Slots.FreeSome, Slots.FreeAll;
    SetReads(b.Abs(), v, key, value);
    var _ := b.Execute(Command.SetNodeProperty(v, key, value));
    r := b.GetNode(v);
  }

  lemma SetReads(g: Graph, v: NodeId, key: string, value: PropertyValue)
    ensures Allowed(g, Command.SetNodeProperty(v, key, value))
    ensures forall id :: NodeKey(g, Apply(g, Command.SetNodeProperty(v, key, value), id), v, key, Some(value))
    ensures forall id ::
      var h := Apply(g, Command.SetNodeProperty(v, key, value), id);
      && (v in h.nodes <==> v in g.nodes)
      && (v in h.nodes ==>
            && Get(h.nodes, v) == Some(h.nodes[v])
            && key in h.nodes[v].properties && h.nodes[v].properties[key] == value
            && h.nodes[v].labels == g.nodes[v].labels
            && forall k :: k != key ==> Get(h.nodes[v].properties, k) == Get(g.nodes[v].properties, k))
  {
    PropertyReads(g, v, 0, key, value);
  }
}
