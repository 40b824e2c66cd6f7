/**
  Transactions that the transaction manager itself records, on the slot store. A deletion
  logs the node and not the edges that go with it, so a rollback cannot bring them back.
 */
module Transactions {
  import opened Collections
  import opened Multigraph
  import opened GraphOps
  import opened UndoLog
  import opened LoggedRuns
  import LabelIndex
  import Slots
  import GraphStore
  import R = Rollback
  import B = Backend

  datatype TransactionState = Active | Committed | RolledBack
  datatype TransactionError = ReadOnly | AlreadyFinished | LockTimeout(resource: string) | Deadlock
  datatype Outcome<+T> = Done(value: T) | Failed(error: TransactionError)

  // ---------------------------------------------------- what the manager logs

  ghost predicate ManagerRecords(g: Graph, c: B.Command, id: nat, rs: seq<UndoRecord>) {
    match c
    case CreateNode(_) => id !in g.nodes && rs == [CreatedNode(id)]
    case DeleteNode(v) => rs == if v in g.nodes then [NodeRecord(g.nodes[v])] else []
    case SetNodeProperty(v, key, _) => rs == [SetProperty(v, key, Get(NodeProperties(g, v), key))]
    case _ => false
  }

  ghost predicate ManagedRun(g: Graph, steps: seq<Step>, h: Graph)
    decreases |steps|
  {
    if steps == [] then g == h
    else
      && ManagerRecords(g, steps[0].command, steps[0].id, steps[0].records)
      && ManagedRun(B.Apply(g, steps[0].command, steps[0].id), steps[1..], h)
  }

  lemma {:induction false} ManagedSnoc(g: Graph, steps: seq<Step>, h: Graph, step: Step)
    requires ManagedRun(g, steps, h) && ManagerRecords(h, step.command, step.id, step.records)
    ensures ManagedRun(g, steps + [step], B.Apply(h, step.command, step.id))
    ensures Log(steps + [step]) == Log(steps) + step.records
    ensures Commands(steps + [step]) == Commands(steps) + [step.command]
    decreases |steps|
  {
    hide ManagerRecords, B.Apply;
    if steps == [] {
      assert steps + [step] == [step] && [step][1..] == [];
    } else {
      ManagedSnoc(B.Apply(g, steps[0].command, steps[0].id), steps[1..], h, step);
      assert (steps + [step])[1..] == steps[1..] + [step];
    }
  }

  // --------------------------------------------------------- where the log leads

  /** The nodes that the commands delete. */
  function Deleted(cs: seq<B.Command>): set<NodeId> {
    if cs == [] then {} else (if cs[0].DeleteNode? then {cs[0].v} else {}) + Deleted(cs[1..])
  }

  /** The graph without the edges at some nodes. */
  function WithoutEdgesAt(g: Graph, vs: set<NodeId>): Graph {
    Graph(g.nodes, map e | e in g.edges && g.edges[e].from !in vs && g.edges[e].to !in vs :: g.edges[e])
  }

  /** One step back, from the later graph to the earlier one, both without the lost edges. */
  lemma ManagedStepBack(g: Graph, step: Step, vs: set<NodeId>)
    requires WellFormed(g) && ManagerRecords(g, step.command, step.id, step.records)
    ensures Undoes(step.records, WithoutEdgesAt(B.Apply(g, step.command, step.id), vs),
                   WithoutEdgesAt(g, Deleted([step.command]) + vs))
  {
    var c := step.command;
    var m := WithoutEdgesAt(g, vs);
    assert Deleted([c]) == if c.DeleteNode? then {c.v} else {} by { assert [c][1..] == []; }
    assert {} + vs == vs;
    match c
    case CreateNode(labels) =>
      assert WithoutEdgesAt(AddNode(g, step.id, labels), vs) == AddNode(m, step.id, labels);
      CreateNodeUndone(m, step.id, labels);
      UndoesOne(CreatedNode(step.id), AddNode(m, step.id, labels), m);
    case SetNodeProperty(v, key, value) =>
      assert WithoutEdgesAt(B.Apply(g, c, step.id), vs) == SetNodeProperty(m, v, key, value);
      SetNodePropertyUndone(m, v, key, value);
      UndoesOne(SetProperty(v, key, Get(NodeProperties(g, v), key)), SetNodeProperty(m, v, key, value), m);
    case DeleteNode(v) =>
      DeletionBack(g, v, vs);
      if v in g.nodes {
        UndoesOne(NodeRecord(g.nodes[v]), WithoutEdgesAt(DropNode(g, v), vs), WithoutEdgesAt(g, {v} + vs));
      }
  }

  lemma DeletionBack(g: Graph, v: NodeId, vs: set<NodeId>)
    requires WellFormed(g)
    ensures var h := WithoutEdgesAt(DropNode(g, v), vs);
      if v in g.nodes then
        CanUndo(h, NodeRecord(g.nodes[v])) && Compensate(h, NodeRecord(g.nodes[v])) == WithoutEdgesAt(g, {v} + vs)
      else h == WithoutEdgesAt(g, {v} + vs)
  {
    var h := WithoutEdgesAt(DropNode(g, v), vs);
    assert h.edges == WithoutEdgesAt(g, {v} + vs).edges;
    if v in g.nodes {
      assert (g.nodes - {v})[v := g.nodes[v]] == g.nodes;
    }
  }

  /** The log of any managed run leads to exactly the start without the edges at deleted nodes. */
  lemma {:induction false} ManagedLogLeadsBack(g: Graph, steps: seq<Step>, h: Graph)
    requires WellFormed(g) && ManagedRun(g, steps, h)
    ensures Undoes(Log(steps), h, WithoutEdgesAt(g, Deleted(Commands(steps))))
    decreases |steps|
  {
    if steps == [] {
      assert WithoutEdgesAt(g, {}) == g;
    } else {
      var c := steps[0].command;
      var mid := B.Apply(g, c, steps[0].id);
      B.ApplyWellFormed(g, c, steps[0].id);
      var vs := Deleted(Commands(steps[1..]));
      DeletedCons(c, Commands(steps[1..]));
      hide WellFormed, ManagerRecords, B.Apply, WithoutEdgesAt, Undoes, Deleted;
      ManagedLogLeadsBack(mid, steps[1..], h);
      ManagedStepBack(g, steps[0], vs);
      UndoesJoin(steps[0].records, Log(steps[1..]), h, WithoutEdgesAt(mid, vs), WithoutEdgesAt(g, Deleted([c]) + vs));
    }
  }

  lemma DeletedCons(c: B.Command, cs: seq<B.Command>)
    ensures Deleted([c] + cs) == Deleted([c]) + Deleted(cs)
  {
    assert ([c] + cs)[1..] == cs && [c][1..] == [];
  }

  lemma {:induction false} DeletedMeans(cs: seq<B.Command>, v: NodeId)
    ensures v in Deleted(cs) <==> B.DeleteNode(v) in cs
    decreases |cs|
  {
    if cs != [] {
      DeletedMeans(cs[1..], v);
      assert cs == [cs[0]] + cs[1..];
    }
  }

  /** Nothing is lost, not even up to the order of labels, if and only if no edge of the start touches a
      deleted node. */
  lemma NothingLostIff(g: Graph, vs: set<NodeId>)
    ensures WithoutEdgesAt(g, vs) == g <==> forall v :: v in vs ==> Incident(g, v) == {}
    ensures SameButLabelOrder(WithoutEdgesAt(g, vs), g) <==> forall v :: v in vs ==> Incident(g, v) == {}
  {
    var h := WithoutEdgesAt(g, vs);
    if v :| v in vs && Incident(g, v) != {} {
      var e :| e in Incident(g, v);
      assert e in g.edges && e !in h.edges;
    } else {
      forall e | e in g.edges ensures g.edges[e].from !in vs && g.edges[e].to !in vs {
        assert e in Incident(g, g.edges[e].from) && e in Incident(g, g.edges[e].to);
      }
      assert h.edges == g.edges;
    }
  }

  /** One deletion is undone by its record if and only if the node had no edges. */
  lemma DeletionUndoneIff(g: Graph, v: NodeId)
    requires WellFormed(g) && v in g.nodes
    ensures Compensate(DropNode(g, v), NodeRecord(g.nodes[v])) == g <==> Incident(g, v) == {}
  {
    NodeBack(g, v);
    if e :| e in Incident(g, v) {
      assert e in g.edges && e !in g.edges - Incident(g, v);
    } else {
      assert g.edges - Incident(g, v) == g.edges;
    }
  }

  /** Two nodes and an edge between them: after deleting one and rolling back, the edge is gone. */
  lemma EdgeIsLost()
    ensures var a, b := Node(0, [], map[]), Node(1, [], map[]);
      var g := Graph(map[0 := a, 1 := b], map[0 := Edge(0, "R", 0, 1, map[])]);
      WellFormed(g) && !SameButLabelOrder(Compensate(DropNode(g, 0), NodeRecord(a)), g)
  {
    var a, b := Node(0, [], map[]), Node(1, [], map[]);
    var g := Graph(map[0 := a, 1 := b], map[0 := Edge(0, "R", 0, 1, map[])]);
    assert 0 in Incident(g, 0) && 0 in g.edges;
    NodeBack(g, 0);
    assert 0 !in Compensate(DropNode(g, 0), NodeRecord(a)).edges;
  }

  // -------------------------------------------------------------- the transaction

  class Transaction {
    const graph: GraphStore.GraphStore
    const readOnly: bool
    var state: TransactionState
    var undo: seq<UndoRecord>

    /** The graph the transaction found, and what was done to it. */
    ghost const start: Graph
    ghost var steps: seq<Step>

    ghost predicate Valid()
      reads this, graph
    {
      graph.Valid() && WellFormed(start)
      && (state == Active ==> ManagedRun(start, steps, graph.Abs()) && undo == Log(steps))
    }

    constructor (graph: GraphStore.GraphStore, readOnly: bool)
      requires graph.Valid()
      ensures Valid() && this.graph == graph && this.readOnly == readOnly
      ensures state == Active && start == graph.Abs() && steps == []
    {
      this.graph, this.readOnly, state, undo := graph, readOnly, Active, [];
      start, steps := graph.Abs(), [];
    }

    /** Why a change is refused. */
    function Refusal(): Option<TransactionError>
      reads this
    {
      if readOnly then Some(ReadOnly) else if state != Active then Some(AlreadyFinished) else None
    }

    ghost method Extend(g: Graph, c: B.Command, id: nat, rs: seq<UndoRecord>)
      requires graph.Valid() && WellFormed(start) && ManagedRun(start, steps, g) && ManagerRecords(g, c, id, rs)
      requires graph.Abs() == B.Apply(g, c, id) && undo == Log(steps) + rs
      modifies this`steps
      ensures Valid() && Commands(steps) == Commands(old(steps)) + [c]
    {
      hide WellFormed, LabelIndex.Indexed, LabelIndex.Tidy, GraphStore.Adjacent, Slots.Live, Slots.FreeSome;
      hide Slots.FreeAll, ManagedRun, Log, Commands;
      hide ManagerRecords, B.Apply;
      ManagedSnoc(start, steps, g, Step(c, id, rs));
      steps := steps + [Step(c, id, rs)];
    }

    method CreateNode(name: string) returns (r: Outcome<NodeId>)
      requires Valid()
      modifies this, graph
      ensures Valid() && state == old(state)
      ensures r.Failed? <==> old(Refusal()).Some?
      ensures r.Failed? ==> Some(r.error) == old(Refusal()) && graph.Abs() == old(graph.Abs()) && steps == old(steps)
      ensures r.Done? ==> r.value !in old(graph.Abs()).nodes
      ensures r.Done? ==> graph.Abs() == AddNode(old(graph.Abs()), r.value, GraphStore.OneLabel(name))
      ensures r.Done? ==> Commands(steps) == Commands(old(steps)) + [B.CreateNode(GraphStore.OneLabel(name))]
    {
      hide WellFormed, LabelIndex.Indexed, LabelIndex.Tidy, GraphStore.Adjacent, Slots.Live, Slots.FreeSome;
      hide Slots.FreeAll, ManagedRun, Log, Commands;
      hide DropNode, AddNode, SetNodeProperty;
      if Refusal().Some? {
        return Failed(Refusal().value);
      }
      ghost var g := graph.Abs();
      var id := graph.CreateNode(name);
      undo := undo + [CreatedNode(id)];
      Extend(g, B.CreateNode(GraphStore.OneLabel(name)), id, [CreatedNode(id)]);
      r := Done(id);
    }

    /** `lock` is the error of acquiring the write lock, if any. Only the node is logged. */
    method DeleteNode(v: NodeId, lock: Option<TransactionError>) returns (r: Outcome<bool>)
      requires Valid()
      modifies this, graph
      ensures Valid() && state == old(state)
      ensures r.Failed? <==> old(Refusal()).Some? || lock.Some?
      ensures r.Failed? ==> r.error == (if old(Refusal()).Some? then old(Refusal()).value else lock.value)
      ensures r.Failed? ==> graph.Abs() == old(graph.Abs()) && steps == old(steps)
      ensures r.Done? ==> graph.Abs() == DropNode(old(graph.Abs()), v) && (r.value <==> v in old(graph.Abs()).nodes)
      ensures r.Done? ==> Commands(steps) == Commands(old(steps)) + [B.DeleteNode(v)]
    {
      hide WellFormed, LabelIndex.Indexed, LabelIndex.Tidy, GraphStore.Adjacent, Slots.Live, Slots.FreeSome;
      hide Slots.FreeAll, ManagedRun, Log, Commands;
      hide DropNode, AddNode, SetNodeProperty;
      if Refusal().Some? {
        return Failed(Refusal().value);
      }
      if lock.Some? {
        return Failed(lock.value);
      }
      ghost var g := graph.Abs();
      var node := graph.GetNode(v);
      ghost var rs := if node.Some? then [NodeRecord(node.value)] else [];
      GraphStoreIds(graph, v);
      if node.Some? {
        undo := undo + [DeletedNode(v, node.value.labels, node.value.properties)];
      }
      var removed := graph.DeleteNode(v);
      Extend(g, B.DeleteNode(v), 0, rs);
      r := Done(removed.Some?);
    }

    method SetProperty(v: NodeId, key: string, value: PropertyValue,
                       lock: Option<TransactionError>) returns (r: Outcome<()>)
      requires Valid()
      modifies this, graph
      ensures Valid() && state == old(state)
      ensures r.Failed? <==> old(Refusal()).Some? || lock.Some?
      ensures r.Failed? ==> r.error == (if old(Refusal()).Some? then old(Refusal()).value else lock.value)
      ensures r.Failed? ==> graph.Abs() == old(graph.Abs()) && steps == old(steps)
      ensures r.Done? ==> graph.Abs() == SetNodeProperty(old(graph.Abs()), v, key, value)
      ensures r.Done? ==> Commands(steps) == Commands(old(steps)) + [B.SetNodeProperty(v, key, value)]
    {
      hide WellFormed, LabelIndex.Indexed, LabelIndex.Tidy, GraphStore.Adjacent, Slots.Live, Slots.FreeSome;
      hide Slots.FreeAll, ManagedRun, Log, Commands;
      hide DropNode, AddNode, SetNodeProperty;
      if Refusal().Some? {
        return Failed(Refusal().value);
      }
      if lock.Some? {
        return Failed(lock.value);
      }
      ghost var g := graph.Abs();
      var node := graph.GetNode(v);
      var oldValue := if node.Some? then Get(node.value.properties, key) else None;
      undo := undo + [UndoLog.SetProperty(v, key, oldValue)];
      graph.SetNodeProperty(v, key, value);
      Extend(g, B.SetNodeProperty(v, key, value), 0, [UndoLog.SetProperty(v, key, oldValue)]);
      r := Done(());
    }

    method Commit() returns (r: Outcome<()>)
      requires Valid()
      modifies this
      ensures Valid() && (r.Failed? <==> old(state) != Active) && (r.Failed? ==> r.error == AlreadyFinished)
      ensures state == if old(state) == Active then Committed else old(state)
      ensures r.Done? ==> undo == []
    {
      if state != Active {
        return Failed(AlreadyFinished);
      }
      undo, state := [], Committed;
      r := Done(());
    }

    /** Leads to the start without the edges at deleted nodes; that is the start itself, even if only up
        to the order of labels, if and only if no edge of the start touches a deleted node. */
    method Rollback() returns (r: Outcome<()>)
      requires Valid()
      modifies this, graph
      ensures Valid() && steps == old(steps)
      ensures r.Failed? <==> old(state) != Active
      ensures r.Failed? ==> r.error == AlreadyFinished && graph.Abs() == old(graph.Abs()) && state == old(state)
      ensures r.Done? ==> state == RolledBack && graph.Abs() == WithoutEdgesAt(start, Deleted(Commands(steps)))
      ensures r.Done? ==>
        (graph.Abs() == start <==> forall v :: B.DeleteNode(v) in Commands(steps) ==> Incident(start, v) == {})
      ensures r.Done? ==>
        (SameButLabelOrder(graph.Abs(), start) <==>
         forall v :: B.DeleteNode(v) in Commands(steps) ==> Incident(start, v) == {})
    {
      hide WellFormed, LabelIndex.Indexed, LabelIndex.Tidy, GraphStore.Adjacent, Slots.Live, Slots.FreeSome;
      hide Slots.FreeAll, ManagedRun, Log, Commands;
      hide Undoes, WithoutEdgesAt, Deleted, SameButLabelOrder, Incident;
      if state != Active {
        return Failed(AlreadyFinished);
      }
      ghost var vs := Deleted(Commands(steps));
      ManagedLogLeadsBack(start, steps, graph.Abs());
      NoRemovals(start, steps, graph.Abs());
      var _ := R.ApplyLog(B.Slotted(graph), undo, WithoutEdgesAt(start, vs));
      undo, state := [], RolledBack;
      NothingLostIff(start, vs);
      forall v ensures v in vs <==> B.DeleteNode(v) in Commands(steps) {
        DeletedMeans(Commands(steps), v);
      }
      r := Done(());
    }
  }

  lemma GraphStoreIds(graph: GraphStore.GraphStore, v: NodeId)
    requires graph.Valid()
    ensures v in graph.Abs().nodes ==> graph.Abs().nodes[v].id == v
  {
  }

  lemma {:induction false} NoRemovals(g: Graph, steps: seq<Step>, h: Graph)
    requires ManagedRun(g, steps, h)
    ensures forall i :: 0 <= i < |Log(steps)| ==> R.PutsBack(Log(steps)[i])
    decreases |steps|
  {
    if steps != [] {
      NoRemovals(B.Apply(g, steps[0].command, steps[0].id), steps[1..], h);
    }
  }
}
