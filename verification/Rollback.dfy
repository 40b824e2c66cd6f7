/** Rolling back a log, and the graph that records how to undo what is done to it. */
module Rollback {
  import opened Collections
  import opened Multigraph
  import opened GraphOps
  import opened UndoLog
  import opened RestoredLabels
  import opened LoggedRuns
  import LabelIndex
  import Slots
  import GraphStore
  import ConcurrentGraph
  import B = Backend

  // --------------------------------------------------------------------------- rolling back

  /** A store never takes an empty label, so none can be put back. */
  predicate PutsBack(r: UndoRecord) { r.RemovedLabel? ==> r.name != "" }

  lemma UndoesLast(log: seq<UndoRecord>, i: nat, g: Graph, target: Graph)
    requires i < |log| && Undoes(log[..i + 1], g, target)
    ensures CanUndo(g, log[i]) && Undoes(log[..i], Compensate(g, log[i]), target)
  {
    assert log[..i + 1][..i] == log[..i];
  }

  lemma UndoesNothing(g: Graph, target: Graph)
    requires Undoes([], g, target)
    ensures g == target
  {
  }

  function Touches(r: UndoRecord): set<NodeId> {
    if r.CreatedEdge? || r.DeletedEdge? || r.ChangedEdgeProperty? then {} else {r.v}
  }

  lemma TouchesOnly(g: Graph, r: UndoRecord)
    ensures forall v :: v !in Touches(r) ==> Get(Compensate(g, r).nodes, v) == Get(g.nodes, v)
  {
  }

  /** Carry out the compensating change of one record. */
  method ApplyUndo(b: B.Backend, r: UndoRecord)
    requires b.Valid() && CanUndo(b.Abs(), r) && PutsBack(r)
    modifies b.Objects()
    ensures b.Valid() && b.Abs() == Compensate(old(b.Abs()), r)
  {
    hide B.Backend.Valid, B.Backend.Abs;
    hide DropNode, DropEdge, AddLabel, RemoveLabel, SetNodeProperty, RemoveNodeProperty, SetEdgeProperty;
    hide RemoveEdgeProperty;
    match r
    case CreatedNode(v) => var _ := b.Execute(B.DeleteNode(v));
    case DeletedNode(v, labels, p) =>
      var _ := b.Execute(B.RestoreNode(v, labels));
      RestoreNodeProperties(b, v, p);
    case SetProperty(v, key, oldValue) =>
      if oldValue.Some? {
        var _ := b.Execute(B.SetNodeProperty(v, key, oldValue.value));
      } else {
        var _ := b.Execute(B.RemoveNodeProperty(v, key));
      }
    case CreatedEdge(e) => var _ := b.Execute(B.DeleteEdge(e));
    case DeletedEdge(e, from, to, t, p) =>
      var _ := b.Execute(B.RestoreEdge(e, from, to, t));
      RestoreEdgeProperties(b, e, p);
    case ChangedEdgeProperty(e, key, oldValue) =>
      if oldValue.Some? {
        var _ := b.Execute(B.SetEdgeProperty(e, key, oldValue.value));
      } else {
        var _ := b.Execute(B.RemoveEdgeProperty(e, key));
      }
    case AddedLabel(v, name) => var _ := b.Execute(B.RemoveLabel(v, name));
    case RemovedLabel(v, name) => var _ := b.Execute(B.AddLabel(v, name));
  }

  /** Set the saved properties one by one, in any order. */
  method RestoreNodeProperties(b: B.Backend, v: NodeId, p: Properties)
    requires b.Valid() && v in b.Abs().nodes && b.Abs().nodes[v].properties == map[]
    modifies b.Objects()
    ensures b.Valid() && b.Abs() == PutNodeProperties(old(b.Abs()), v, p)
  {
    hide B.Backend.Valid, B.Backend.Abs, PutNodeProperties;
    ghost var g := b.Abs();
    var todo := p.Keys;
    NodePropertiesStart(g, v, p);
    while todo != {}
      invariant b.Valid() && todo <= p.Keys && b.Abs() == PutNodeProperties(g, v, p - todo)
    {
      var key :| key in todo;
      var _ := b.Execute(B.SetNodeProperty(v, key, p[key]));
      NodePropertiesNext(g, v, p, todo, key);
      todo := todo - {key};
    }
    assert p - {} == p;
  }

  lemma NodePropertiesStart(g: Graph, v: NodeId, p: Properties)
    requires v in g.nodes && g.nodes[v].properties == map[]
    ensures g == PutNodeProperties(g, v, p - p.Keys)
  {
    assert p - p.Keys == map[];
  }

  lemma NodePropertiesNext(g: Graph, v: NodeId, p: Properties, todo: set<string>, key: string)
    requires v in g.nodes && key in todo && key in p
    ensures SetNodeProperty(PutNodeProperties(g, v, p - todo), v, key, p[key]) ==
      PutNodeProperties(g, v, p - (todo - {key}))
  {
    assert (p - todo)[key := p[key]] == p - (todo - {key});
  }

  method RestoreEdgeProperties(b: B.Backend, e: EdgeId, p: Properties)
    requires b.Valid() && e in b.Abs().edges && b.Abs().edges[e].properties == map[]
    modifies b.Objects()
    ensures b.Valid() && b.Abs() == PutEdgeProperties(old(b.Abs()), e, p)
  {
    hide B.Backend.Valid, B.Backend.Abs, PutEdgeProperties;
    ghost var g := b.Abs();
    var todo := p.Keys;
    EdgePropertiesStart(g, e, p);
    while todo != {}
      invariant b.Valid() && todo <= p.Keys && b.Abs() == PutEdgeProperties(g, e, p - todo)
    {
      var key :| key in todo;
      var _ := b.Execute(B.SetEdgeProperty(e, key, p[key]));
      EdgePropertiesNext(g, e, p, todo, key);
      todo := todo - {key};
    }
    assert p - {} == p;
  }

  lemma EdgePropertiesStart(g: Graph, e: EdgeId, p: Properties)
    requires e in g.edges && g.edges[e].properties == map[]
    ensures g == PutEdgeProperties(g, e, p - p.Keys)
  {
    assert p - p.Keys == map[];
  }

  lemma EdgePropertiesNext(g: Graph, e: EdgeId, p: Properties, todo: set<string>, key: string)
    requires e in g.edges && key in todo && key in p
    ensures SetEdgeProperty(PutEdgeProperties(g, e, p - todo), e, key, p[key]) ==
      PutEdgeProperties(g, e, p - (todo - {key}))
  {
    assert (p - todo)[key := p[key]] == p - (todo - {key});
  }

  /** Apply the inverse of each record in reverse order. On either store the graph becomes exactly the one
      the log leads to, and nodes that are not reported as touched do not change. */
  method ApplyLog(b: B.Backend, log: seq<UndoRecord>, ghost target: Graph) returns (touched: set<NodeId>)
    requires b.Valid() && Undoes(log, b.Abs(), target) && forall i :: 0 <= i < |log| ==> PutsBack(log[i])
    modifies b.Objects()
    ensures b.Valid() && b.Abs() == target
    ensures forall v :: v !in touched ==> Get(target.nodes, v) == Get(old(b.Abs()).nodes, v)
  {
    hide B.Backend.Valid, B.Backend.Abs, Undoes, UndoLog.CanUndo, UndoLog.Compensate, Get;
    touched := {};
    var i := |log|;
    assert log[..i] == log;
    while i > 0
      invariant 0 <= i <= |log| && b.Valid() && Undoes(log[..i], b.Abs(), target)
      invariant forall v :: v !in touched ==> Get(b.Abs().nodes, v) == Get(old(b.Abs()).nodes, v)
    {
      i := i - 1;
      var r := log[i];
      UndoesLast(log, i, b.Abs(), target);
      TouchesOnly(b.Abs(), r);
      ApplyUndo(b, r);
      touched := touched + Touches(r);
    }
    assert log[..0] == [];
    UndoesNothing(b.Abs(), target);
  }

  /** On either store: delete a node, then restore it from its records. The graph is the same again. */
  method DeleteAndRestore(b: B.Backend, v: NodeId)
    requires b.Valid()
    modifies b.Objects()
    ensures b.Valid() && b.Abs() == old(b.Abs())
  {
    hide B.Backend.Valid, B.Backend.Abs, Undoes, WellFormed, Lists, EdgeIds, Incident, DropNode;
    ghost var g := b.Abs();
    b.ValidWellFormed();
    var n := b.GetNode(v);
    if n.None? {
      return;
    }
    var es := IncidentEdges(b, v);
    var _ := b.Execute(B.DeleteNode(v));
    DeleteNodeUndone(g, v, es);
    var _ := ApplyLog(b, EdgeRecords(es) + [NodeRecord(n.value)], g);
  }

  /** The first end of a new edge that is not live. */
  method Missing(b: B.Backend, from: NodeId, to: NodeId) returns (r: Option<NodeId>)
    requires b.Valid()
    ensures r.None? <==> from in b.Abs().nodes && to in b.Abs().nodes
    ensures r.Some? ==> r.value == if from !in b.Abs().nodes then from else to
  {
    hide WellFormed, LabelIndex.Indexed, GraphStore.Adjacent, ConcurrentGraph.Adjacent, Slots.Live, Slots.FreeSome;
    hide Slots.FreeAll;
    var f := b.GetNode(from);
    if f.None? {
      return Some(from);
    }
    var t := b.GetNode(to);
    r := if t.None? then Some(to) else None;
  }

  function Kept(g: Graph, ids: set<EdgeId>, v: NodeId, skip: bool): set<EdgeId> {
    set e | e in ids && e in g.edges && !(skip && g.edges[e].from == v)
  }

  /** The records of some edges, without those that leave v when they are to be skipped. */
  method Collect(b: B.Backend, ids: set<EdgeId>, v: NodeId, skip: bool) returns (es: seq<Edge>)
    requires b.Valid() && ids <= b.Abs().edges.Keys
    ensures Lists(es, b.Abs()) && EdgeIds(es) == Kept(b.Abs(), ids, v, skip)
  {
    hide Lists, EdgeIds, WellFormed, LabelIndex.Indexed, GraphStore.Adjacent, ConcurrentGraph.Adjacent;
    hide Slots.Live, Slots.FreeSome, Slots.FreeAll, LabelIndex.Tidy, ConcurrentGraph.Below;
    es := [];
    ghost var g := b.Abs();
    ListsNothing(g);
    var todo := ids;
    while todo != {}
      invariant Lists(es, g) && todo <= ids && EdgeIds(es) == Kept(g, ids - todo, v, skip)
    {
      var e :| e in todo;
      var r := b.GetEdge(e);
      b.ValidWellFormed();
      KeptNext(g, ids, todo, e, v, skip);
      if !(skip && r.value.from == v) {
        ListsMore(es, g, e);
        es := es + [r.value];
      }
      todo := todo - {e};
    }
  }

  lemma KeptNext(g: Graph, ids: set<EdgeId>, todo: set<EdgeId>, e: EdgeId, v: NodeId, skip: bool)
    requires todo <= ids && e in todo && e in g.edges
    ensures e !in Kept(g, ids - todo, v, skip)
    ensures Kept(g, ids - (todo - {e}), v, skip) ==
      if skip && g.edges[e].from == v then Kept(g, ids - todo, v, skip) else Kept(g, ids - todo, v, skip) + {e}
  {
  }

  /** The edges leaving a node, then those entering it from elsewhere, so that a self-loop comes once. */
  method IncidentEdges(b: B.Backend, v: NodeId) returns (es: seq<Edge>)
    requires b.Valid()
    ensures Lists(es, b.Abs()) && EdgeIds(es) == Incident(b.Abs(), v)
  {
    hide Lists, EdgeIds, WellFormed, LabelIndex.Indexed, GraphStore.Adjacent, ConcurrentGraph.Adjacent;
    hide Slots.Live, Slots.FreeSome, Slots.FreeAll, LabelIndex.Tidy, ConcurrentGraph.Below, Kept;
    ghost var g := b.Abs();
    KeptParts(g, v);
    var outgoing := b.OutgoingIds(v);
    es := Collect(b, outgoing, v, false);
    var incoming := b.IncomingIds(v);
    var others := Collect(b, incoming, v, true);
    ListsConcat(es, others, g);
    es := es + others;
  }

  lemma KeptParts(g: Graph, v: NodeId)
    ensures Out(g, v) <= g.edges.Keys && In(g, v) <= g.edges.Keys
    ensures Kept(g, Out(g, v), v, false) == Out(g, v) && Out(g, v) !! Kept(g, In(g, v), v, true)
    ensures Out(g, v) + Kept(g, In(g, v), v, true) == Incident(g, v)
  {
  }

  lemma {:induction false} ListsConcat(es: seq<Edge>, fs: seq<Edge>, g: Graph)
    requires Lists(es, g) && Lists(fs, g) && EdgeIds(es) !! EdgeIds(fs)
    ensures Lists(es + fs, g) && EdgeIds(es + fs) == EdgeIds(es) + EdgeIds(fs)
  {
    var all := es + fs;
    forall i | 0 <= i < |es| ensures es[i].id in EdgeIds(es) && all[i].id in EdgeIds(all) {
    }
    forall i | 0 <= i < |fs|
      ensures fs[i].id in EdgeIds(fs) && fs[i] == all[|es| + i] && all[|es| + i].id in EdgeIds(all)
    {
    }
    forall x | x in EdgeIds(all) ensures x in EdgeIds(es) + EdgeIds(fs) {
      var i :| 0 <= i < |all| && all[i].id == x;
      assert i >= |es| ==> all[i] == fs[i - |es|];
    }
    forall i, j | 0 <= i < j < |all| ensures all[i].id != all[j].id {
      if i < |es| <= j {
        assert all[j] == fs[j - |es|];
      } else if |es| <= i {
        assert all[i] == fs[i - |es|] && all[j] == fs[j - |es|];
      }
    }
  }

  lemma ListsNothing(g: Graph)
    ensures Lists([], g) && EdgeIds([]) == {}
  {
  }

  lemma ListsMore(es: seq<Edge>, g: Graph, e: EdgeId)
    requires WellFormed(g) && Lists(es, g) && e in g.edges && e !in EdgeIds(es)
    ensures Lists(es + [g.edges[e]], g) && EdgeIds(es + [g.edges[e]]) == EdgeIds(es) + {e}
  {
    var fs := es + [g.edges[e]];
    forall i | 0 <= i < |es| ensures es[i].id in EdgeIds(es) {
    }
    forall x ensures x in EdgeIds(fs) <==> x in EdgeIds(es) || x == e {
      if x in EdgeIds(es) {
        var i :| 0 <= i < |es| && es[i].id == x;
        assert fs[i].id == x;
      }
      if x == e {
        assert fs[|es|].id == x;
      }
    }
  }

  // ------------------------------------------------------------------- the recording graph

  /** A command of the interface that the stores agree on and whose labels are not empty. */
  ghost predicate Loggable(g: Graph, c: B.Command) {
    B.Allowed(g, c) && (c.RemoveLabel? ==> c.name != "")
  }

  lemma AnyId(g: Graph, c: B.Command, i: nat, j: nat, rs: seq<UndoRecord>)
    requires !c.CreateNode? && !c.CreateEdge?
    ensures B.Apply(g, c, i) == B.Apply(g, c, j) && (Records(g, c, i, rs) <==> Records(g, c, j, rs))
  {
  }

  /** Nothing is logged for a failed or empty command, and nothing happens. */
  lemma NothingDone(g: Graph, c: B.Command)
    requires match c
      case DeleteNode(v) => v !in g.nodes
      case DeleteEdge(e) => e !in g.edges
      case RemoveNodeProperty(v, key) => key !in NodeProperties(g, v)
      case RemoveEdgeProperty(e, key) => key !in EdgeProperties(g, e)
      case AddLabel(v, name) => v !in g.nodes || name in g.nodes[v].labels
      case RemoveLabel(v, name) => v !in g.nodes || name !in g.nodes[v].labels
      case CreateEdge(from, to, _) => from !in g.nodes || to !in g.nodes
      case RestoreEdge(_, from, to, _) => from !in g.nodes || to !in g.nodes
      case _ => false
    ensures forall id :: B.Apply(g, c, id) == g && Records(g, c, id, [])
    ensures c.CreateEdge? ==> forall id :: B.Picks(g, c, id)
  {
    match c
    case DeleteEdge(e) => assert g.edges - {e} == g.edges;
    case RemoveNodeProperty(v, key) => assert NodeProperties(g, v) - {key} == NodeProperties(g, v);
    case RemoveEdgeProperty(e, key) => assert EdgeProperties(g, e) - {key} == EdgeProperties(g, e);
    case RemoveLabel(v, name) => WithoutAbsent(Labels(g, v), name);
    case _ =>
  }

  class RecordingGraph {
    /** The wrapped graph; the program records on the shared store only. */
    const graph: B.Backend
    var undo: seq<UndoRecord>

    /** The graph the transaction found, and what was done to it. */
    ghost const start: Graph
    ghost var steps: seq<Step>

    /** The log is that of a run from the start to the graph as it is. */
    ghost predicate Valid()
      reads this, graph.Objects()
    {
      && this !in graph.Objects() && graph.Shared? && graph.Valid()
      && WellFormed(start) && LoggedRun(start, steps, graph.Abs()) && undo == Log(steps)
      && (forall i :: 0 <= i < |undo| ==> PutsBack(undo[i]))
      && (forall i :: 0 <= i < |Commands(steps)| ==> NamedRemoval(Commands(steps)[i]))
    }

    /** The command was carried out, and exactly its records were appended to the log. */
    twostate predicate Did(c: B.Command, id: nat)
      reads this, graph.Objects()
    {
      && Commands(steps) == Commands(old(steps)) + [c] && graph.Abs() == B.Apply(old(graph.Abs()), c, id)
      && old(undo) <= undo && Records(old(graph.Abs()), c, id, undo[|old(undo)|..])
    }

    constructor (shared: ConcurrentGraph.ConcurrentGraph)
      requires shared.Valid()
      ensures Valid() && graph == B.Shared(shared) && start == shared.Abs() && steps == []
    {
      graph, undo, start, steps := B.Shared(shared), [], shared.Abs(), [];
      new;
      graph.ValidWellFormed();
    }

    /** One more command, carried out and logged. */
    ghost method Extend(g: Graph, c: B.Command, id: nat, rs: seq<UndoRecord>)
      requires this !in graph.Objects() && graph.Shared? && graph.Valid() && WellFormed(start)
      requires LoggedRun(start, steps, g) && Logged(g, Step(c, id, rs)) && graph.Abs() == B.Apply(g, c, id)
      requires undo == Log(steps) + rs && (forall i :: 0 <= i < |undo| ==> PutsBack(undo[i]))
      requires NamedRemoval(c) && forall i :: 0 <= i < |Commands(steps)| ==> NamedRemoval(Commands(steps)[i])
      modifies this`steps
      ensures Valid() && steps == old(steps) + [Step(c, id, rs)]
      ensures Commands(steps) == Commands(old(steps)) + [c]
    {
      hide B.Backend.Valid, B.Backend.Abs, B.Apply, LoggedRun, Log, Commands, Logged, WellFormed;
      RunSnoc(start, steps, g, Step(c, id, rs));
      steps := steps + [Step(c, id, rs)];
    }

    method CreateNodeWithLabels(labels: seq<string>) returns (id: NodeId)
      requires Valid()
      modifies this, graph.Objects()
      ensures Valid() && Did(B.CreateNode(labels), id)
    {
      hide B.Backend.Valid, B.Backend.Abs, B.Apply, LoggedRun, Log, Commands, WellFormed, DeletionRecords;
      ghost var g := graph.Abs();
      id := graph.Execute(B.CreateNode(labels));
      CreationLogged(g, B.CreateNode(labels), id);
      ghost var was := undo;
      undo := undo + [CreatedNode(id)];
      assert undo[|was|..] == [CreatedNode(id)];
      Extend(g, B.CreateNode(labels), id, [CreatedNode(id)]);
    }

    method CreateEdge(from: NodeId, to: NodeId, edgeType: string) returns (r: Result<EdgeId>)
      requires Valid()
      modifies this, graph.Objects()
      ensures Valid() && Did(B.CreateEdge(from, to, edgeType), if r.Ok? then r.value else 0)
      ensures r.Ok? <==> from in old(graph.Abs()).nodes && to in old(graph.Abs()).nodes
      ensures r.Err? ==> r.error == NodeNotFound(if from !in old(graph.Abs()).nodes then from else to)
      ensures r.Err? ==> undo == old(undo)
    {
      hide B.Backend.Valid, B.Backend.Abs, B.Apply, LoggedRun, Log, Commands, WellFormed, DeletionRecords;
      ghost var g := graph.Abs();
      ghost var c := B.CreateEdge(from, to, edgeType);
      var missing := Missing(graph, from, to);
      if missing.Some? {
        NothingDone(g, c);
        NoRecord(g, c, 0);
        assert undo + [] == undo && undo[|undo|..] == [];
        Extend(g, c, 0, []);
        return Err(NodeNotFound(missing.value));
      }
      var id := graph.Execute(B.CreateEdge(from, to, edgeType));
      CreationLogged(g, c, id);
      ghost var was := undo;
      undo := undo + [CreatedEdge(id)];
      assert undo[|was|..] == [CreatedEdge(id)];
      Extend(g, c, id, [CreatedEdge(id)]);
      r := Ok(id);
    }

    /** The edges at a node are captured before they go with it. */
    method DeleteNode(v: NodeId) returns (r: Option<Node>)
      requires Valid()
      modifies this, graph.Objects()
      ensures Valid() && Did(B.DeleteNode(v), 0)
      ensures r == Get(old(graph.Abs()).nodes, v) && (r.None? ==> undo == old(undo))
    {
      hide B.Backend.Valid, B.Backend.Abs, B.Apply, LoggedRun, Log, Commands, WellFormed, DeletionRecords;
      ghost var g := graph.Abs();
      ghost var c := B.DeleteNode(v);
      r := graph.GetNode(v);
      var incident := IncidentEdges(graph, v);
      var id := graph.Execute(B.DeleteNode(v));
      AnyId(g, c, id, 0, []);
      if r.None? {
        NothingDone(g, c);
        NoRecord(g, c, 0);
        assert undo + [] == undo && undo[|undo|..] == [];
        Extend(g, c, 0, []);
        return;
      }
      DeletionLogged(g, v, incident);
      ghost var was := undo;
      undo := undo + (EdgeRecords(incident) + [NodeRecord(r.value)]);
      assert undo[|was|..] == EdgeRecords(incident) + [NodeRecord(r.value)];
      Extend(g, c, 0, EdgeRecords(incident) + [NodeRecord(r.value)]);
    }

    method DeleteEdge(e: EdgeId) returns (r: Option<Edge>)
      requires Valid()
      modifies this, graph.Objects()
      ensures Valid() && Did(B.DeleteEdge(e), 0)
      ensures r == Get(old(graph.Abs()).edges, e) && (r.None? ==> undo == old(undo))
    {
      hide B.Backend.Valid, B.Backend.Abs, B.Apply, LoggedRun, Log, Commands, WellFormed, DeletionRecords;
      ghost var g := graph.Abs();
      ghost var c := B.DeleteEdge(e);
      r := graph.GetEdge(e);
      var id := graph.Execute(B.DeleteEdge(e));
      AnyId(g, c, id, 0, []);
      if r.None? {
        NothingDone(g, c);
        NoRecord(g, c, 0);
        assert undo + [] == undo && undo[|undo|..] == [];
        Extend(g, c, 0, []);
        return;
      }
      OneRecord(g, c, EdgeRecord(r.value));
      ghost var was := undo;
      undo := undo + [EdgeRecord(r.value)];
      assert undo[|was|..] == [EdgeRecord(r.value)];
      Extend(g, c, 0, [EdgeRecord(r.value)]);
    }

    /** A record is kept even when the node is not live; undoing it then does nothing. */
    method SetNodeProperty(v: NodeId, key: string, value: PropertyValue)
      requires Valid()
      modifies this, graph.Objects()
      ensures Valid() && Did(B.SetNodeProperty(v, key, value), 0)
    {
      hide B.Backend.Valid, B.Backend.Abs, B.Apply, LoggedRun, Log, Commands, WellFormed, DeletionRecords;
      ghost var g := graph.Abs();
      ghost var c := B.SetNodeProperty(v, key, value);
      var n := graph.GetNode(v);
      var oldValue := if n.Some? then Get(n.value.properties, key) else None;
      var id := graph.Execute(B.SetNodeProperty(v, key, value));
      AnyId(g, c, id, 0, []);
      OneRecord(g, c, SetProperty(v, key, oldValue));
      ghost var was := undo;
      undo := undo + [SetProperty(v, key, oldValue)];
      assert undo[|was|..] == [SetProperty(v, key, oldValue)];
      Extend(g, c, 0, [SetProperty(v, key, oldValue)]);
    }

    method RemoveNodeProperty(v: NodeId, key: string) returns (r: Option<PropertyValue>)
      requires Valid()
      modifies this, graph.Objects()
      ensures Valid() && Did(B.RemoveNodeProperty(v, key), 0)
      ensures r == Get(NodeProperties(old(graph.Abs()), v), key) && (r.None? ==> undo == old(undo))
    {
      hide B.Backend.Valid, B.Backend.Abs, B.Apply, LoggedRun, Log, Commands, WellFormed, DeletionRecords;
      ghost var g := graph.Abs();
      ghost var c := B.RemoveNodeProperty(v, key);
      var n := graph.GetNode(v);
      r := if n.Some? then Get(n.value.properties, key) else None;
      var id := graph.Execute(B.RemoveNodeProperty(v, key));
      AnyId(g, c, id, 0, []);
      if r.None? {
        NothingDone(g, c);
        NoRecord(g, c, 0);
        assert undo + [] == undo && undo[|undo|..] == [];
        Extend(g, c, 0, []);
        return;
      }
      OneRecord(g, c, SetProperty(v, key, r));
      ghost var was := undo;
      undo := undo + [SetProperty(v, key, r)];
      assert undo[|was|..] == [SetProperty(v, key, r)];
      Extend(g, c, 0, [SetProperty(v, key, r)]);
    }

    method SetEdgeProperty(e: EdgeId, key: string, value: PropertyValue)
      requires Valid()
      modifies this, graph.Objects()
      ensures Valid() && Did(B.SetEdgeProperty(e, key, value), 0)
    {
      hide B.Backend.Valid, B.Backend.Abs, B.Apply, LoggedRun, Log, Commands, WellFormed, DeletionRecords;
      ghost var g := graph.Abs();
      ghost var c := B.SetEdgeProperty(e, key, value);
      var n := graph.GetEdge(e);
      var oldValue := if n.Some? then Get(n.value.properties, key) else None;
      var id := graph.Execute(B.SetEdgeProperty(e, key, value));
      AnyId(g, c, id, 0, []);
      OneRecord(g, c, ChangedEdgeProperty(e, key, oldValue));
      ghost var was := undo;
      undo := undo + [ChangedEdgeProperty(e, key, oldValue)];
      assert undo[|was|..] == [ChangedEdgeProperty(e, key, oldValue)];
      Extend(g, c, 0, [ChangedEdgeProperty(e, key, oldValue)]);
    }

    method RemoveEdgeProperty(e: EdgeId, key: string) returns (r: Option<PropertyValue>)
      requires Valid()
      modifies this, graph.Objects()
      ensures Valid() && Did(B.RemoveEdgeProperty(e, key), 0)
      ensures r == Get(EdgeProperties(old(graph.Abs()), e), key) && (r.None? ==> undo == old(undo))
    {
      hide B.Backend.Valid, B.Backend.Abs, B.Apply, LoggedRun, Log, Commands, WellFormed, DeletionRecords;
      ghost var g := graph.Abs();
      ghost var c := B.RemoveEdgeProperty(e, key);
      var n := graph.GetEdge(e);
      r := if n.Some? then Get(n.value.properties, key) else None;
      var id := graph.Execute(B.RemoveEdgeProperty(e, key));
      AnyId(g, c, id, 0, []);
      if r.None? {
        NothingDone(g, c);
        NoRecord(g, c, 0);
        assert undo + [] == undo && undo[|undo|..] == [];
        Extend(g, c, 0, []);
        return;
      }
      OneRecord(g, c, ChangedEdgeProperty(e, key, r));
      ghost var was := undo;
      undo := undo + [ChangedEdgeProperty(e, key, r)];
      assert undo[|was|..] == [ChangedEdgeProperty(e, key, r)];
      Extend(g, c, 0, [ChangedEdgeProperty(e, key, r)]);
    }

    method AddNodeLabel(v: NodeId, name: string)
      requires Valid() && name != ""
      modifies this, graph.Objects()
      ensures Valid() && Did(B.AddLabel(v, name), 0)
    {
      hide B.Backend.Valid, B.Backend.Abs, B.Apply, LoggedRun, Log, Commands, WellFormed, DeletionRecords;
      ghost var g := graph.Abs();
      ghost var c := B.AddLabel(v, name);
      var n := graph.GetNode(v);
      var id := graph.Execute(B.AddLabel(v, name));
      AnyId(g, c, id, 0, []);
      if n.None? || name in n.value.labels {
        NothingDone(g, c);
        NoRecord(g, c, 0);
        assert undo + [] == undo && undo[|undo|..] == [];
        Extend(g, c, 0, []);
        return;
      }
      OneRecord(g, c, AddedLabel(v, name));
      ghost var was := undo;
      undo := undo + [AddedLabel(v, name)];
      assert undo[|was|..] == [AddedLabel(v, name)];
      Extend(g, c, 0, [AddedLabel(v, name)]);
    }

    method RemoveNodeLabel(v: NodeId, name: string)
      requires Valid() && name != ""
      modifies this, graph.Objects()
      ensures Valid() && Did(B.RemoveLabel(v, name), 0)
    {
      hide B.Backend.Valid, B.Backend.Abs, B.Apply, LoggedRun, Log, Commands, WellFormed, DeletionRecords;
      ghost var g := graph.Abs();
      ghost var c := B.RemoveLabel(v, name);
      var n := graph.GetNode(v);
      var id := graph.Execute(B.RemoveLabel(v, name));
      AnyId(g, c, id, 0, []);
      if n.None? || name !in n.value.labels {
        NothingDone(g, c);
        NoRecord(g, c, 0);
        assert undo + [] == undo && undo[|undo|..] == [];
        Extend(g, c, 0, []);
        return;
      }
      OneRecord(g, c, RemovedLabel(v, name));
      ghost var was := undo;
      undo := undo + [RemovedLabel(v, name)];
      assert undo[|was|..] == [RemovedLabel(v, name)];
      Extend(g, c, 0, [RemovedLabel(v, name)]);
    }

    method RestoreNode(v: NodeId, labels: seq<string>)
      requires Valid() && v !in graph.Abs().nodes
      modifies this, graph.Objects()
      ensures Valid() && Did(B.RestoreNode(v, labels), 0)
    {
      hide B.Backend.Valid, B.Backend.Abs, B.Apply, LoggedRun, Log, Commands, WellFormed, DeletionRecords;
      ghost var g := graph.Abs();
      ghost var c := B.RestoreNode(v, labels);
      var id := graph.Execute(B.RestoreNode(v, labels));
      AnyId(g, c, id, 0, []);
      OneRecord(g, c, CreatedNode(v));
      ghost var was := undo;
      undo := undo + [CreatedNode(v)];
      assert undo[|was|..] == [CreatedNode(v)];
      Extend(g, c, 0, [CreatedNode(v)]);
    }

    method RestoreEdge(e: EdgeId, from: NodeId, to: NodeId, edgeType: string) returns (r: Result<EdgeId>)
      requires Valid() && e !in graph.Abs().edges
      modifies this, graph.Objects()
      ensures Valid() && Did(B.RestoreEdge(e, from, to, edgeType), 0)
      ensures r.Ok? <==> from in old(graph.Abs()).nodes && to in old(graph.Abs()).nodes
      ensures r.Ok? ==> r.value == e
      ensures r.Err? ==> r.error == NodeNotFound(if from !in old(graph.Abs()).nodes then from else to)
      ensures r.Err? ==> undo == old(undo)
    {
      hide B.Backend.Valid, B.Backend.Abs, B.Apply, LoggedRun, Log, Commands, WellFormed, DeletionRecords;
      ghost var g := graph.Abs();
      ghost var c := B.RestoreEdge(e, from, to, edgeType);
      var missing := Missing(graph, from, to);
      if missing.Some? {
        NothingDone(g, c);
        NoRecord(g, c, 0);
        assert undo + [] == undo && undo[|undo|..] == [];
        Extend(g, c, 0, []);
        return Err(NodeNotFound(missing.value));
      }
      var id := graph.Execute(B.RestoreEdge(e, from, to, edgeType));
      AnyId(g, c, id, 0, []);
      OneRecord(g, c, CreatedEdge(e));
      ghost var was := undo;
      undo := undo + [CreatedEdge(e)];
      assert undo[|was|..] == [CreatedEdge(e)];
      Extend(g, c, 0, [CreatedEdge(e)]);
      r := Ok(e);
    }

    /** Roll back everything done so far. The graph is then exactly the start with its labels restored:
        the start itself if and only if every label list survives, and the start up to the order of
        labels in any case. Nodes that are not reported as touched do not change. */
    method Rollback() returns (touched: set<NodeId>)
      requires Valid()
      modifies this, graph.Objects()
      ensures graph.Valid() && undo == [] && steps == old(steps)
      ensures graph.Abs() == Relabel(start, Commands(steps)) && SameButLabelOrder(graph.Abs(), start)
      ensures graph.Abs() == start <==>
        forall v :: v in start.nodes ==> Restored(start.nodes[v].labels, Commands(steps), v) == start.nodes[v].labels
      ensures forall v :: v !in touched ==> Get(graph.Abs().nodes, v) == Get(old(graph.Abs()).nodes, v)
    {
      hide B.Backend.Valid, B.Backend.Abs, Undoes, LoggedRun, Log, Commands, WellFormed, Relabel, Restored;
      hide SameButLabelOrder;
      ghost var cs := Commands(steps);
      LogLeadsBack(start, steps, graph.Abs());
      touched := ApplyLog(graph, undo, Relabel(start, cs));
      undo := [];
      ExactIff(start, cs);
      SameOrder(start, cs);
    }

    /** Any command of the interface. */
    method Perform(c: B.Command)
      requires Valid() && Loggable(graph.Abs(), c)
      modifies this, graph.Objects()
      ensures Valid() && Commands(steps) == Commands(old(steps)) + [c]
    {
      hide B.Backend.Valid, B.Backend.Abs, B.Apply, LoggedRun, Log, Commands, Records, WellFormed;
      match c
      case CreateNode(labels) => var _ := CreateNodeWithLabels(labels);
      case CreateEdge(from, to, t) => var _ := CreateEdge(from, to, t);
      case DeleteNode(v) => var _ := DeleteNode(v);
      case DeleteEdge(e) => var _ := DeleteEdge(e);
      case SetNodeProperty(v, key, value) => SetNodeProperty(v, key, value);
      case RemoveNodeProperty(v, key) => var _ := RemoveNodeProperty(v, key);
      case AddLabel(v, name) => AddNodeLabel(v, name);
      case RemoveLabel(v, name) => RemoveNodeLabel(v, name);
      case SetEdgeProperty(e, key, value) => SetEdgeProperty(e, key, value);
      case RemoveEdgeProperty(e, key) => var _ := RemoveEdgeProperty(e, key);
      case RestoreNode(v, labels) => RestoreNode(v, labels);
      case RestoreEdge(e, from, to, t) => var _ := RestoreEdge(e, from, to, t);
    }
  }

  predicate NamedRemoval(c: B.Command) { c.RemoveLabel? ==> c.name != "" }

  lemma CreationLogged(g: Graph, c: B.Command, id: nat)
    requires B.Picks(g, c, id) && (c.CreateNode? || (c.CreateEdge? && c.from in g.nodes && c.to in g.nodes))
    ensures var rs := [if c.CreateNode? then CreatedNode(id) else CreatedEdge(id)];
      Records(g, c, id, rs) && Logged(g, Step(c, id, rs))
  {
  }

  lemma DeletionLogged(g: Graph, v: NodeId, es: seq<Edge>)
    requires v in g.nodes && Lists(es, g) && EdgeIds(es) == Incident(g, v)
    ensures var rs := EdgeRecords(es) + [NodeRecord(g.nodes[v])];
      && Records(g, B.DeleteNode(v), 0, rs) && Logged(g, Step(B.DeleteNode(v), 0, rs))
      && forall i :: 0 <= i < |rs| ==> PutsBack(rs[i])
  {
    hide Lists, EdgeIds, Incident;
  }

  lemma NoRecord(g: Graph, c: B.Command, id: nat)
    requires B.Allowed(g, c) && Records(g, c, id, []) && B.Picks(g, c, id)
    ensures Logged(g, Step(c, id, []))
  {
    hide Records, B.Picks;
  }

  lemma OneRecord(g: Graph, c: B.Command, r: UndoRecord)
    requires B.Allowed(g, c) && !c.CreateNode? && !c.CreateEdge? && Records(g, c, 0, [r])
    ensures Logged(g, Step(c, 0, [r]))
  {
    hide Records;
  }

  lemma {:induction false} NoEmptyRemoval(cs: seq<B.Command>, v: NodeId)
    requires forall i :: 0 <= i < |cs| ==> NamedRemoval(cs[i])
    ensures "" !in Removals(cs, v)
    decreases |cs|
  {
    if cs != [] {
      NoEmptyRemoval(cs[1..], v);
      if cs[0].RemoveLabel? {
        LabelIndex.WithoutElems(Removals(cs[1..], v), cs[0].name);
      }
    }
  }

  lemma SameOrder(g: Graph, cs: seq<B.Command>)
    requires forall i :: 0 <= i < |cs| ==> NamedRemoval(cs[i])
    ensures SameButLabelOrder(Relabel(g, cs), g)
  {
    hide Relabel, SameButLabelOrder, Removals;
    SameIff(g, cs);
    forall v | v in g.nodes ensures "" !in Removals(cs, v) {
      NoEmptyRemoval(cs, v);
    }
  }

  // -------------------------------------------------------------------- whole transactions

  /** Whatever a recorded transaction did on the shared store, rolling it back leaves the graph it found
      with the labels restored, and that graph itself if and only if every label list survives. */
  method RunAndRollBack(shared: ConcurrentGraph.ConcurrentGraph, commands: seq<B.Command>) returns (done: nat)
    requires shared.Valid()
    modifies shared
    ensures shared.Valid() && done <= |commands|
    ensures shared.Abs() == Relabel(old(shared.Abs()), commands[..done])
    ensures SameButLabelOrder(shared.Abs(), old(shared.Abs()))
    ensures shared.Abs() == old(shared.Abs()) <==>
      forall v :: v in old(shared.Abs()).nodes ==>
        Restored(old(shared.Abs()).nodes[v].labels, commands[..done], v) == old(shared.Abs()).nodes[v].labels
  {
    hide Undoes, WellFormed, SameButLabelOrder, B.Apply, LoggedRun, Log, Commands, Relabel, Restored;
    hide ConcurrentGraph.Adjacent, ConcurrentGraph.Below, LabelIndex.Indexed;
    var tx := new RecordingGraph(shared);
    done := 0;
    NoCommands();
    while done < |commands|
      invariant tx.Valid() && fresh(tx) && tx.graph == B.Shared(shared) && tx.start == old(shared.Abs())
      invariant done <= |commands| && Commands(tx.steps) == commands[..done]
    {
      var ok := tx.graph.Admits(commands[done]);
      if !ok || (commands[done].RemoveLabel? && commands[done].name == "") {
        break;
      }
      tx.Perform(commands[done]);
      assert commands[..done + 1] == commands[..done] + [commands[done]];
      done := done + 1;
    }
    var _ := tx.Rollback();
  }

  lemma NoCommands()
    ensures Commands([]) == []
  {
  }
}
