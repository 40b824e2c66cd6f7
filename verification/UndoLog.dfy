/** The undo records of a transaction and what applying them in reverse restores. */
module UndoLog {
  import opened Collections
  import opened Multigraph
  import opened GraphOps
  import opened LabelIndex

  datatype UndoRecord =
    | CreatedNode(v: NodeId)
    | DeletedNode(v: NodeId, labels: seq<string>, properties: Properties)
    | SetProperty(v: NodeId, key: string, oldValue: Option<PropertyValue>)
    | CreatedEdge(e: EdgeId)
    | DeletedEdge(e: EdgeId, from: NodeId, to: NodeId, edgeType: string, properties: Properties)
    | ChangedEdgeProperty(e: EdgeId, key: string, oldValue: Option<PropertyValue>)
    | AddedLabel(v: NodeId, name: string)
    | RemovedLabel(v: NodeId, name: string)

  /** The compensating change for a record. */
  function Compensate(g: Graph, r: UndoRecord): Graph {
    match r
    case CreatedNode(v) => DropNode(g, v)
    case DeletedNode(v, labels, p) => Graph(g.nodes[v := Node(v, labels, p)], g.edges)
    case SetProperty(v, key, Some(x)) => SetNodeProperty(g, v, key, x)
    case SetProperty(v, key, None) => RemoveNodeProperty(g, v, key)
    case CreatedEdge(e) => DropEdge(g, e)
    case DeletedEdge(e, from, to, t, p) =>
      if from in g.nodes && to in g.nodes then Graph(g.nodes, g.edges[e := Edge(e, t, from, to, p)]) else g
    case ChangedEdgeProperty(e, key, Some(x)) => SetEdgeProperty(g, e, key, x)
    case ChangedEdgeProperty(e, key, None) => RemoveEdgeProperty(g, e, key)
    case AddedLabel(v, name) => RemoveLabel(g, v, name)
    case RemovedLabel(v, name) => AddLabel(g, v, name)
  }

  /** What is restored is not live, and the ends of a restored edge are. */
  ghost predicate CanUndo(g: Graph, r: UndoRecord) {
    match r
    case DeletedNode(v, _, _) => v !in g.nodes
    case DeletedEdge(e, from, to, _, _) => e !in g.edges && from in g.nodes && to in g.nodes
    case _ => true
  }

  /** Applying the log in reverse to g, each record where it can be applied, leads to the target. */
  ghost predicate Undoes(log: seq<UndoRecord>, g: Graph, target: Graph)
    decreases |log|
  {
    if log == [] then g == target
    else
      var n := |log| - 1;
      CanUndo(g, log[n]) && Undoes(log[..n], Compensate(g, log[n]), target)
  }

  /** A record that compensates the step from g to h extends a log that leads from g to the target. */
  lemma UndoesPush(log: seq<UndoRecord>, r: UndoRecord, h: Graph, g: Graph, target: Graph)
    requires Undoes(log, g, target) && CanUndo(h, r) && Compensate(h, r) == g
    ensures Undoes(log + [r], h, target)
  {
    hide Compensate, CanUndo;
    assert (log + [r])[..|log|] == log;
  }

  lemma UndoesOne(r: UndoRecord, h: Graph, g: Graph)
    requires CanUndo(h, r) && Compensate(h, r) == g
    ensures Undoes([r], h, g)
  {
    hide Compensate, CanUndo;
    UndoesPush([], r, h, g, g);
    assert [] + [r] == [r];
  }

  /** Logs applied one after the other are one log. */
  lemma {:induction false} UndoesJoin(early: seq<UndoRecord>, late: seq<UndoRecord>, h: Graph, g: Graph, target: Graph)
    requires Undoes(late, h, g) && Undoes(early, g, target)
    ensures Undoes(early + late, h, target)
    decreases |late|
  {
    hide Compensate, CanUndo;
    if late == [] {
      assert early + late == early;
    } else {
      var n := |late| - 1;
      UndoesJoin(early, late[..n], Compensate(h, late[n]), g, target);
      assert (early + late)[..|early + late| - 1] == early + late[..n];
    }
  }

  /** The same graph, except that a node's labels may come in another order or number. */
  ghost predicate SameButLabelOrder(g: Graph, h: Graph) {
    && g.edges == h.edges && g.nodes.Keys == h.nodes.Keys
    && forall v :: v in g.nodes ==>
      && g.nodes[v].id == h.nodes[v].id && g.nodes[v].properties == h.nodes[v].properties
      && (forall l :: l in g.nodes[v].labels <==> l in h.nodes[v].labels)
  }

  // ---------------------------------------------------------- one command and its record

  lemma CreateNodeUndone(g: Graph, id: NodeId, labels: seq<string>)
    requires WellFormed(g) && id !in g.nodes
    ensures Compensate(AddNode(g, id, labels), CreatedNode(id)) == g
  {
    var h := AddNode(g, id, labels);
    DeadHasNoEdges(g, id);
    SameEdgesSameAdjacency(g, h, id);
    assert h.nodes - {id} == g.nodes;
    assert h.edges - {} == g.edges;
  }

  lemma CreateEdgeUndone(g: Graph, id: EdgeId, from: NodeId, to: NodeId, t: string)
    requires id !in g.edges
    ensures Compensate(AddEdge(g, id, from, to, t), CreatedEdge(id)) == g
  {
    assert AddEdge(g, id, from, to, t).edges - {id} == g.edges;
  }

  function EdgeRecord(e: Edge): UndoRecord { DeletedEdge(e.id, e.from, e.to, e.edgeType, e.properties) }

  function NodeRecord(n: Node): UndoRecord { DeletedNode(n.id, n.labels, n.properties) }

  lemma DeleteEdgeUndone(g: Graph, e: EdgeId)
    requires WellFormed(g) && e in g.edges
    ensures var r := EdgeRecord(g.edges[e]); CanUndo(DropEdge(g, e), r) && Compensate(DropEdge(g, e), r) == g
  {
    assert (g.edges - {e})[e := g.edges[e]] == g.edges;
  }

  lemma SetNodePropertyUndone(g: Graph, v: NodeId, key: string, x: PropertyValue)
    ensures Compensate(SetNodeProperty(g, v, key, x), SetProperty(v, key, Get(NodeProperties(g, v), key))) == g
  {
    if v in g.nodes {
      var p := g.nodes[v].properties;
      if key in p {
        assert p[key := x][key := p[key]] == p;
      } else {
        assert p[key := x] - {key} == p;
      }
    }
  }

  lemma RemoveNodePropertyUndone(g: Graph, v: NodeId, key: string)
    requires key in NodeProperties(g, v)
    ensures Compensate(RemoveNodeProperty(g, v, key), SetProperty(v, key, Some(NodeProperties(g, v)[key]))) == g
  {
    var p := g.nodes[v].properties;
    assert (p - {key})[key := p[key]] == p;
  }

  lemma SetEdgePropertyUndone(g: Graph, e: EdgeId, key: string, x: PropertyValue)
    ensures Compensate(SetEdgeProperty(g, e, key, x), ChangedEdgeProperty(e, key, Get(EdgeProperties(g, e), key))) == g
  {
    if e in g.edges {
      var p := g.edges[e].properties;
      if key in p {
        assert p[key := x][key := p[key]] == p;
      } else {
        assert p[key := x] - {key} == p;
      }
    }
  }

  lemma RemoveEdgePropertyUndone(g: Graph, e: EdgeId, key: string)
    requires key in EdgeProperties(g, e)
    ensures Compensate(RemoveEdgeProperty(g, e, key), ChangedEdgeProperty(e, key, Some(EdgeProperties(g, e)[key]))) == g
  {
    var p := g.edges[e].properties;
    assert (p - {key})[key := p[key]] == p;
  }

  lemma {:induction false} WithoutSnoc(s: seq<string>, x: string)
    ensures Without(s + [x], x) == Without(s, x)
    decreases |s|
  {
    if s == [] {
      assert s + [x] == [x] && [x][1..] == [];
    } else {
      WithoutSnoc(s[1..], x);
      assert (s + [x])[1..] == s[1..] + [x];
    }
  }

  lemma AddLabelUndone(g: Graph, v: NodeId, name: string)
    requires v in g.nodes && name !in g.nodes[v].labels
    ensures Compensate(AddLabel(g, v, name), AddedLabel(v, name)) == g
  {
    var labels := g.nodes[v].labels;
    WithoutSnoc(labels, name);
    WithoutAbsent(labels, name);
    assert g.nodes[v].(labels := labels) == g.nodes[v];
  }

  /** Taking a label off and putting it back restores the label list exactly when the label stood
      last and nowhere else. */
  lemma RemoveLabelUndoneExactly(g: Graph, v: NodeId, name: string)
    requires v in g.nodes && name in g.nodes[v].labels && name != ""
    ensures var labels := g.nodes[v].labels;
      Compensate(RemoveLabel(g, v, name), RemovedLabel(v, name)) == g
      <==> labels[|labels| - 1] == name && name !in labels[..|labels| - 1]
  {
    var labels := g.nodes[v].labels;
    var back := Compensate(RemoveLabel(g, v, name), RemovedLabel(v, name));
    WithoutElems(labels, name);
    assert back.nodes[v].labels == Without(labels, name) + [name];
    LastOnly(labels, name);
    hide Without;
    if Without(labels, name) + [name] == labels {
      assert back.nodes == g.nodes;
    }
  }

  lemma LastOnly(s: seq<string>, x: string)
    requires x in s
    ensures Without(s, x) + [x] == s <==> s[|s| - 1] == x && x !in s[..|s| - 1]
  {
    var n := |s| - 1;
    WithoutElems(s, x);
    if s[n] == x && x !in s[..n] {
      assert s == s[..n] + [x];
      WithoutSnoc(s[..n], x);
      WithoutAbsent(s[..n], x);
    }
  }

  /** Up to order it is restored exactly when it is not the empty label. */
  lemma RemoveLabelUndone(g: Graph, v: NodeId, name: string)
    requires v in g.nodes && name in g.nodes[v].labels
    ensures SameButLabelOrder(Compensate(RemoveLabel(g, v, name), RemovedLabel(v, name)), g) <==> name != ""
  {
    var labels := g.nodes[v].labels;
    WithoutElems(labels, name);
    var back := Compensate(RemoveLabel(g, v, name), RemovedLabel(v, name));
    assert back.nodes[v].labels == WithLabel(Without(labels, name), name);
    if name == "" {
      assert name !in back.nodes[v].labels;
    }
  }

  // --------------------------------------------------------- deleting a node with its edges

  function EdgeIds(es: seq<Edge>): set<EdgeId> { set i | 0 <= i < |es| :: es[i].id }

  function EdgeRecords(es: seq<Edge>): seq<UndoRecord> { seq(|es|, i requires 0 <= i < |es| => EdgeRecord(es[i])) }

  /** The list shows stored edges, each once. */
  ghost predicate Lists(es: seq<Edge>, g: Graph) {
    && (forall i :: 0 <= i < |es| ==> es[i].id in g.edges && g.edges[es[i].id] == es[i])
    && (forall i, j :: 0 <= i < j < |es| ==> es[i].id != es[j].id)
  }

  /** Restoring listed edges one after the other, in reverse order. */
  lemma {:induction false} EdgesUndone(g: Graph, es: seq<Edge>)
    requires WellFormed(g) && Lists(es, g)
    ensures Undoes(EdgeRecords(es), Graph(g.nodes, g.edges - EdgeIds(es)), g)
    decreases |es|
  {
    if es == [] {
      assert EdgeRecords(es) == [] && g.edges - EdgeIds(es) == g.edges;
    } else {
      var n := |es| - 1;
      var e := es[n];
      EdgesUndone(g, es[..n]);
      var before := Graph(g.nodes, g.edges - EdgeIds(es[..n]));
      EdgeBack(g, es);
      hide Undoes, CanUndo, Compensate;
      UndoesPush(EdgeRecords(es[..n]), EdgeRecord(e), DropEdge(before, e.id), before, g);
      assert EdgeRecords(es[..n]) + [EdgeRecord(e)] == EdgeRecords(es);
    }
  }

  lemma EdgeBack(g: Graph, es: seq<Edge>)
    requires WellFormed(g) && Lists(es, g) && es != []
    ensures var n := |es| - 1; var before := Graph(g.nodes, g.edges - EdgeIds(es[..n]));
      && DropEdge(before, es[n].id) == Graph(g.nodes, g.edges - EdgeIds(es))
      && CanUndo(DropEdge(before, es[n].id), EdgeRecord(es[n]))
      && Compensate(DropEdge(before, es[n].id), EdgeRecord(es[n])) == before
  {
    var n := |es| - 1;
    var e := es[n];
    var before := Graph(g.nodes, g.edges - EdgeIds(es[..n]));
    forall x ensures x in EdgeIds(es) <==> x in EdgeIds(es[..n]) || x == e.id {
      if x in EdgeIds(es) {
        var i :| 0 <= i < |es| && es[i].id == x;
        assert i < n ==> es[..n][i].id == x;
      }
      if x in EdgeIds(es[..n]) {
        var i :| 0 <= i < n && es[..n][i].id == x;
        assert es[i].id == x;
      }
    }
    assert e.id !in EdgeIds(es[..n]);
    assert before.edges[e.id] == e;
    DeleteEdgeUndone(before, e.id);
  }

  /** The log of a node deletion, edges first and then the node, undoes it: the node comes back before
      the edges that need it, self-loops included. */
  lemma DeleteNodeUndone(g: Graph, v: NodeId, es: seq<Edge>)
    requires WellFormed(g) && v in g.nodes && Lists(es, g) && EdgeIds(es) == Incident(g, v)
    ensures Undoes(EdgeRecords(es) + [NodeRecord(g.nodes[v])], DropNode(g, v), g)
  {
    EdgesUndone(g, es);
    NodeBack(g, v);
    hide Undoes, CanUndo, Compensate, Incident, Lists;
    UndoesPush(EdgeRecords(es), NodeRecord(g.nodes[v]), DropNode(g, v), Graph(g.nodes, g.edges - EdgeIds(es)), g);
  }

  /** The record of the node alone brings back the node and none of its edges. */
  lemma NodeBack(g: Graph, v: NodeId)
    requires WellFormed(g) && v in g.nodes
    ensures CanUndo(DropNode(g, v), NodeRecord(g.nodes[v]))
    ensures Compensate(DropNode(g, v), NodeRecord(g.nodes[v])) == Graph(g.nodes, g.edges - Incident(g, v))
  {
    assert (g.nodes - {v})[v := g.nodes[v]] == g.nodes;
  }
}
