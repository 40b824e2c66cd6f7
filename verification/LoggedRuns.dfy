/** Runs of commands with the undo records they log, and where the log leads back to. */
module LoggedRuns {
  import opened Collections
  import opened Multigraph
  import opened GraphOps
  import opened LabelIndex
  import opened UndoLog
  import opened RestoredLabels
  import B = Backend

  /** A command, the id it picked when it created something, and the records logged for it. */
  datatype Step = Step(command: B.Command, id: nat, records: seq<UndoRecord>)

  /** The records that the recording graph logs for a command. */
  ghost predicate Records(g: Graph, c: B.Command, id: nat, rs: seq<UndoRecord>) {
    match c
    case CreateNode(_) => rs == [CreatedNode(id)]
    case RestoreNode(v, _) => rs == [CreatedNode(v)]
    case CreateEdge(from, to, _) => rs == if from in g.nodes && to in g.nodes then [CreatedEdge(id)] else []
    case RestoreEdge(e, from, to, _) => rs == if from in g.nodes && to in g.nodes then [CreatedEdge(e)] else []
    case DeleteNode(v) => if v in g.nodes then DeletionRecords(g, v, rs) else rs == []
    case DeleteEdge(e) => rs == if e in g.edges then [EdgeRecord(g.edges[e])] else []
    case SetNodeProperty(v, key, _) => rs == [SetProperty(v, key, Get(NodeProperties(g, v), key))]
    case RemoveNodeProperty(v, key) =>
      rs == if key in NodeProperties(g, v) then [SetProperty(v, key, Get(NodeProperties(g, v), key))] else []
    case SetEdgeProperty(e, key, _) => rs == [ChangedEdgeProperty(e, key, Get(EdgeProperties(g, e), key))]
    case RemoveEdgeProperty(e, key) =>
      rs == if key in EdgeProperties(g, e) then [ChangedEdgeProperty(e, key, Get(EdgeProperties(g, e), key))] else []
    case AddLabel(v, name) => rs == if v in g.nodes && name !in g.nodes[v].labels then [AddedLabel(v, name)] else []
    case RemoveLabel(v, name) => rs == if v in g.nodes && name in g.nodes[v].labels then [RemovedLabel(v, name)] else []
  }

  /** The edges at the node, each once and in any order, and then the node. */
  ghost predicate DeletionRecords(g: Graph, v: NodeId, rs: seq<UndoRecord>)
    requires v in g.nodes
  {
    exists es :: Lists(es, g) && EdgeIds(es) == Incident(g, v) && rs == EdgeRecords(es) + [NodeRecord(g.nodes[v])]
  }

  /** Only what is not live is restored, a create takes an id that is not live, and the records are logged. */
  ghost predicate Logged(g: Graph, step: Step) {
    && (step.command.RestoreNode? ==> step.command.v !in g.nodes)
    && (step.command.RestoreEdge? ==> step.command.e !in g.edges)
    && B.Picks(g, step.command, step.id)
    && Records(g, step.command, step.id, step.records)
  }

  ghost predicate LoggedRun(g: Graph, steps: seq<Step>, h: Graph)
    decreases |steps|
  {
    if steps == [] then g == h
    else Logged(g, steps[0]) && LoggedRun(B.Apply(g, steps[0].command, steps[0].id), steps[1..], h)
  }

  function Log(steps: seq<Step>): seq<UndoRecord> {
    if steps == [] then [] else steps[0].records + Log(steps[1..])
  }

  function Commands(steps: seq<Step>): seq<B.Command> {
    if steps == [] then [] else [steps[0].command] + Commands(steps[1..])
  }

  /** A run goes on with one more step. */
  lemma {:induction false} RunSnoc(g: Graph, steps: seq<Step>, h: Graph, step: Step)
    requires LoggedRun(g, steps, h) && Logged(h, step)
    ensures LoggedRun(g, steps + [step], B.Apply(h, step.command, step.id))
    ensures Log(steps + [step]) == Log(steps) + step.records
    ensures Commands(steps + [step]) == Commands(steps) + [step.command]
    decreases |steps|
  {
    hide Logged, B.Apply;
    if steps == [] {
      assert steps + [step] == [step] && [step][1..] == [];
    } else {
      RunSnoc(B.Apply(g, steps[0].command, steps[0].id), steps[1..], h, step);
      assert (steps + [step])[1..] == steps[1..] + [step];
    }
  }

  // ----------------------------------------------- relabelling and one command

  lemma RelabelAt(g: Graph, cs: seq<B.Command>)
    ensures Relabel(g, cs).nodes.Keys == g.nodes.Keys && Relabel(g, cs).edges == g.edges
    ensures forall v :: v in g.nodes ==>
      Relabel(g, cs).nodes[v] == g.nodes[v].(labels := Restored(g.nodes[v].labels, cs, v))
  {
  }

  lemma RelabelWellFormed(g: Graph, cs: seq<B.Command>)
    requires WellFormed(g)
    ensures WellFormed(Relabel(g, cs))
    ensures forall v :: Out(Relabel(g, cs), v) == Out(g, v) && In(Relabel(g, cs), v) == In(g, v)
  {
    hide Restored;
  }

  /** Commands that leave the labels of old nodes alone do not change what is restored. */
  lemma RelabelOther(g: Graph, c: B.Command, cs: seq<B.Command>)
    requires !c.RemoveLabel? && (c.DeleteNode? ==> c.v !in g.nodes)
    ensures Relabel(g, [c] + cs) == Relabel(g, cs)
  {
    hide Restored;
    RelabelAt(g, [c] + cs);
    RelabelAt(g, cs);
    forall v | v in g.nodes ensures Relabel(g, [c] + cs).nodes[v] == Relabel(g, cs).nodes[v] {
      OtherCommand(c, cs, v, g.nodes[v].labels);
    }
  }

  /** Undoing one command leads from the relabelled later graph to the relabelled earlier one. */
  ghost predicate Leads(g: Graph, step: Step, cs: seq<B.Command>) {
    Undoes(step.records, Relabel(B.Apply(g, step.command, step.id), cs), Relabel(g, [step.command] + cs))
  }

  lemma CreationLeads(g: Graph, step: Step, cs: seq<B.Command>)
    requires WellFormed(g) && Logged(g, step) && (step.command.CreateNode? || step.command.RestoreNode?)
    ensures Leads(g, step, cs)
  {
    var id := if step.command.CreateNode? then step.id else step.command.v;
    var m := Relabel(g, cs);
    hide Restored, Undoes, Compensate;
    RelabelOther(g, step.command, cs);
    RelabelWellFormed(g, cs);
    RelabelAddNode(g, id, step.command.labels, cs);
    var labels := Restored(step.command.labels, cs, id);
    hide Relabel, WellFormed;
    CreateNodeUndone(m, id, labels);
    UndoesOne(CreatedNode(id), AddNode(m, id, labels), m);
  }

  lemma RelabelAddNode(g: Graph, id: NodeId, labels: seq<string>, cs: seq<B.Command>)
    ensures Relabel(AddNode(g, id, labels), cs) == AddNode(Relabel(g, cs), id, Restored(labels, cs, id))
    ensures id in Relabel(g, cs).nodes <==> id in g.nodes
  {
    hide Restored;
    assert Relabel(AddNode(g, id, labels), cs).nodes == AddNode(Relabel(g, cs), id, Restored(labels, cs, id)).nodes;
  }

  lemma EdgeCreationLeads(g: Graph, step: Step, cs: seq<B.Command>)
    requires Logged(g, step) && (step.command.CreateEdge? || step.command.RestoreEdge?)
    ensures Leads(g, step, cs)
  {
    var c := step.command;
    var id := if c.CreateEdge? then step.id else c.e;
    RelabelOther(g, c, cs);
    RelabelAt(g, cs);
    if c.from in g.nodes && c.to in g.nodes {
      var h := AddEdge(g, id, c.from, c.to, c.edgeType);
      assert Relabel(h, cs) == AddEdge(Relabel(g, cs), id, c.from, c.to, c.edgeType);
      hide Restored, Relabel, Undoes, Compensate;
      CreateEdgeUndone(Relabel(g, cs), id, c.from, c.to, c.edgeType);
      UndoesOne(CreatedEdge(id), Relabel(h, cs), Relabel(g, cs));
    }
  }

  lemma EdgeDeletionLeads(g: Graph, step: Step, cs: seq<B.Command>)
    requires WellFormed(g) && Logged(g, step) && step.command.DeleteEdge?
    ensures Leads(g, step, cs)
  {
    var e := step.command.e;
    RelabelOther(g, step.command, cs);
    RelabelAt(g, cs);
    RelabelWellFormed(g, cs);
    assert Relabel(DropEdge(g, e), cs) == DropEdge(Relabel(g, cs), e);
    if e in g.edges {
      hide Restored, Relabel, Undoes, Compensate;
      DeleteEdgeUndone(Relabel(g, cs), e);
      UndoesOne(EdgeRecord(g.edges[e]), Relabel(DropEdge(g, e), cs), Relabel(g, cs));
    } else {
      assert DropEdge(Relabel(g, cs), e).edges == g.edges;
    }
  }

  lemma NodePropertyLeads(g: Graph, step: Step, cs: seq<B.Command>)
    requires Logged(g, step) && (step.command.SetNodeProperty? || step.command.RemoveNodeProperty?)
    ensures Leads(g, step, cs)
  {
    var c := step.command;
    hide Restored, Undoes;
    RelabelOther(g, c, cs);
    var p := NodeProperties(g, c.v);
    RelabelPutProperties(g, c.v, if c.SetNodeProperty? then p[c.key := c.value] else p - {c.key}, cs);
    hide Relabel;
    NodePropertyBack(Relabel(g, cs), c, step.records, Relabel(B.Apply(g, c, step.id), cs));
  }

  lemma RelabelPutProperties(g: Graph, v: NodeId, p: Properties, cs: seq<B.Command>)
    ensures Relabel(PutNodeProperties(g, v, p), cs) == PutNodeProperties(Relabel(g, cs), v, p)
    ensures NodeProperties(Relabel(g, cs), v) == NodeProperties(g, v)
  {
    hide Restored;
    assert Relabel(PutNodeProperties(g, v, p), cs).nodes == PutNodeProperties(Relabel(g, cs), v, p).nodes;
  }

  lemma NodePropertyBack(g: Graph, c: B.Command, rs: seq<UndoRecord>, h: Graph)
    requires (c.SetNodeProperty? || c.RemoveNodeProperty?) && h == B.Apply(g, c, 0) && Records(g, c, 0, rs)
    ensures Undoes(rs, h, g)
  {
    var r := SetProperty(c.v, c.key, Get(NodeProperties(g, c.v), c.key));
    if c.SetNodeProperty? {
      SetNodePropertyUndone(g, c.v, c.key, c.value);
      UndoesOne(r, h, g);
    } else if c.key in NodeProperties(g, c.v) {
      RemoveNodePropertyUndone(g, c.v, c.key);
      UndoesOne(r, h, g);
    } else {
      assert NodeProperties(g, c.v) - {c.key} == NodeProperties(g, c.v);
    }
  }

  lemma EdgePropertyLeads(g: Graph, step: Step, cs: seq<B.Command>)
    requires Logged(g, step) && (step.command.SetEdgeProperty? || step.command.RemoveEdgeProperty?)
    ensures Leads(g, step, cs)
  {
    var c := step.command;
    var m := Relabel(g, cs);
    var h := B.Apply(g, c, step.id);
    RelabelOther(g, c, cs);
    RelabelAt(g, cs);
    RelabelAt(h, cs);
    hide Restored;
    assert Relabel(h, cs) == B.Apply(m, c, step.id);
    hide Relabel;
    EdgePropertyBack(m, c, step.records, Relabel(h, cs));
  }

  lemma EdgePropertyBack(g: Graph, c: B.Command, rs: seq<UndoRecord>, h: Graph)
    requires (c.SetEdgeProperty? || c.RemoveEdgeProperty?) && h == B.Apply(g, c, 0) && Records(g, c, 0, rs)
    ensures Undoes(rs, h, g)
  {
    var r := ChangedEdgeProperty(c.e, c.key, Get(EdgeProperties(g, c.e), c.key));
    if c.SetEdgeProperty? {
      SetEdgePropertyUndone(g, c.e, c.key, c.value);
      UndoesOne(r, h, g);
    } else if c.key in EdgeProperties(g, c.e) {
      RemoveEdgePropertyUndone(g, c.e, c.key);
      UndoesOne(r, h, g);
    } else {
      assert EdgeProperties(g, c.e) - {c.key} == EdgeProperties(g, c.e);
    }
  }

  /** A deletion saves the labels as they were, so they come back as they were. */
  lemma DeletionLeads(g: Graph, step: Step, cs: seq<B.Command>)
    requires WellFormed(g) && Logged(g, step) && step.command.DeleteNode?
    ensures Leads(g, step, cs)
  {
    var v := step.command.v;
    if v in g.nodes {
      var m := Relabel(g, [step.command] + cs);
      RelabelDropNode(g, v, cs);
      RelabelWellFormed(g, [step.command] + cs);
      var es :| Lists(es, g) && EdgeIds(es) == Incident(g, v) &&
        step.records == EdgeRecords(es) + [NodeRecord(g.nodes[v])];
      assert Lists(es, m) && EdgeIds(es) == Incident(m, v) && m.nodes[v] == g.nodes[v];
      hide Relabel, Undoes, Lists, EdgeIds, WellFormed;
      DeleteNodeUndone(m, v, es);
    } else {
      RelabelOther(g, step.command, cs);
    }
  }

  lemma RelabelDropNode(g: Graph, v: NodeId, cs: seq<B.Command>)
    requires v in g.nodes
    ensures var m := Relabel(g, [B.DeleteNode(v)] + cs);
      m.nodes.Keys == g.nodes.Keys && m.nodes[v] == g.nodes[v] && Relabel(DropNode(g, v), cs) == DropNode(m, v)
  {
    var m := Relabel(g, [B.DeleteNode(v)] + cs);
    hide Restored;
    DeletedFirst(cs, v, g.nodes[v].labels);
    RelabelAt(g, [B.DeleteNode(v)] + cs);
    RelabelAt(DropNode(g, v), cs);
    forall w | w in g.nodes && w != v ensures Relabel(DropNode(g, v), cs).nodes[w] == m.nodes[w] {
      OtherCommand(B.DeleteNode(v), cs, w, g.nodes[w].labels);
    }
    SameEdgesSameAdjacency(g, m, v);
    assert Relabel(DropNode(g, v), cs).nodes == DropNode(m, v).nodes;
  }

  /** Writing labels and relabelling, at the node and elsewhere. */
  lemma RelabelPut(g: Graph, v: NodeId, labels: seq<string>, c: B.Command, cs: seq<B.Command>, back: seq<string>)
    requires v in g.nodes && (c.AddLabel? || c.RemoveLabel?) && c.v == v
    requires Restored(g.nodes[v].labels, [c] + cs, v) == back
    ensures PutLabels(Relabel(PutLabels(g, v, labels), cs), v, back) == Relabel(g, [c] + cs)
    ensures Labels(Relabel(PutLabels(g, v, labels), cs), v) == Restored(labels, cs, v)
  {
    hide Restored;
    var h := PutLabels(g, v, labels);
    RelabelAt(g, [c] + cs);
    RelabelAt(h, cs);
    var left, right := PutLabels(Relabel(h, cs), v, back), Relabel(g, [c] + cs);
    forall w | w in g.nodes ensures left.nodes[w] == right.nodes[w] {
      if w != v {
        OtherCommand(c, cs, w, g.nodes[w].labels);
      }
    }
    assert left.nodes == right.nodes;
  }

  lemma AddLabelLeads(g: Graph, step: Step, cs: seq<B.Command>)
    requires Logged(g, step) && step.command.AddLabel?
    ensures Leads(g, step, cs)
  {
    var v, name := step.command.v, step.command.name;
    var h := AddLabel(g, v, name);
    if v in g.nodes && name !in g.nodes[v].labels {
      var labels := g.nodes[v].labels;
      OtherLabel(step.command, cs, v, labels);
      AddedFirst(labels, cs, v, name);
      hide Restored, Without;
      RelabelPut(g, v, WithLabel(labels, name), step.command, cs, Restored(labels, cs, v));
      hide Relabel, Undoes;
      UndoesOne(AddedLabel(v, name), Relabel(h, cs), Relabel(g, [step.command] + cs));
    } else {
      PutSame(g, v);
      RelabelOther(g, step.command, cs);
    }
  }

  lemma OtherLabel(c: B.Command, cs: seq<B.Command>, v: NodeId, labels: seq<string>)
    requires c.AddLabel?
    ensures Restored(labels, [c] + cs, v) == Restored(labels, cs, v)
  {
    OtherCommand(c, cs, v, labels);
  }

  lemma RemoveLabelLeads(g: Graph, step: Step, cs: seq<B.Command>)
    requires Logged(g, step) && step.command.RemoveLabel?
    ensures Leads(g, step, cs)
  {
    var v, name := step.command.v, step.command.name;
    var h := RemoveLabel(g, v, name);
    if v in g.nodes && name in g.nodes[v].labels {
      var labels := g.nodes[v].labels;
      RemovedFirst(labels, cs, v, name);
      hide Restored, Without;
      var left := Without(labels, name);
      RelabelPut(g, v, left, step.command, cs, WithLabel(Restored(left, cs, v), name));
      hide Relabel, Undoes;
      UndoesOne(RemovedLabel(v, name), Relabel(h, cs), Relabel(g, [step.command] + cs));
    } else {
      WithoutAbsent(Labels(g, v), name);
      PutSame(g, v);
      RemovalOfNothing(g, v, name, cs);
    }
  }

  lemma RemovalOfNothing(g: Graph, v: NodeId, name: string, cs: seq<B.Command>)
    requires name !in Labels(g, v)
    ensures Relabel(g, [B.RemoveLabel(v, name)] + cs) == Relabel(g, cs)
  {
    hide Restored;
    var c := B.RemoveLabel(v, name);
    RelabelAt(g, [c] + cs);
    RelabelAt(g, cs);
    forall w | w in g.nodes ensures Relabel(g, [c] + cs).nodes[w] == Relabel(g, cs).nodes[w] {
      if w == v {
        RemovedNothing(g.nodes[v].labels, cs, v, name);
      } else {
        OtherCommand(c, cs, w, g.nodes[w].labels);
      }
    }
  }

  lemma StepLeads(g: Graph, step: Step, cs: seq<B.Command>)
    requires WellFormed(g) && Logged(g, step)
    ensures Leads(g, step, cs)
  {
    hide WellFormed, Logged, Leads;
    match step.command
    case CreateNode(_) => CreationLeads(g, step, cs);
    case RestoreNode(_, _) => CreationLeads(g, step, cs);
    case CreateEdge(_, _, _) => EdgeCreationLeads(g, step, cs);
    case RestoreEdge(_, _, _, _) => EdgeCreationLeads(g, step, cs);
    case DeleteNode(_) => DeletionLeads(g, step, cs);
    case DeleteEdge(_) => EdgeDeletionLeads(g, step, cs);
    case SetNodeProperty(_, _, _) => NodePropertyLeads(g, step, cs);
    case RemoveNodeProperty(_, _) => NodePropertyLeads(g, step, cs);
    case SetEdgeProperty(_, _, _) => EdgePropertyLeads(g, step, cs);
    case RemoveEdgeProperty(_, _) => EdgePropertyLeads(g, step, cs);
    case AddLabel(_, _) => AddLabelLeads(g, step, cs);
    case RemoveLabel(_, _) => RemoveLabelLeads(g, step, cs);
  }

  // -------------------------------------------------------------------- whole runs

  /** The log of any run leads back to exactly the start with its labels restored. */
  lemma {:induction false} LogLeadsBack(g: Graph, steps: seq<Step>, h: Graph)
    requires WellFormed(g) && LoggedRun(g, steps, h)
    ensures Undoes(Log(steps), h, Relabel(g, Commands(steps)))
    decreases |steps|
  {
    if steps == [] {
      RelabelNothing(g);
    } else {
      var c := steps[0].command;
      var mid := B.Apply(g, c, steps[0].id);
      B.ApplyWellFormed(g, c, steps[0].id);
      hide WellFormed, Logged, B.Apply, Relabel, Undoes;
      LogLeadsBack(mid, steps[1..], h);
      StepLeads(g, steps[0], Commands(steps[1..]));
      UndoesJoin(steps[0].records, Log(steps[1..]), h, Relabel(mid, Commands(steps[1..])), Relabel(g, Commands(steps)));
    }
  }

  lemma RelabelNothing(g: Graph)
    ensures Relabel(g, []) == g
  {
    RelabelAt(g, []);
    forall v | v in g.nodes ensures Relabel(g, []).nodes[v] == g.nodes[v] {
      DroppedNothing(g.nodes[v].labels);
    }
    assert Relabel(g, []).nodes == g.nodes;
  }

  /** A rollback is exact if and only if every label list survives: the labels taken off are a
      duplicate-free end of it, the one taken off first last. */
  lemma ExactIff(g: Graph, cs: seq<B.Command>)
    ensures Relabel(g, cs) == g <==>
      forall v :: v in g.nodes ==> Restored(g.nodes[v].labels, cs, v) == g.nodes[v].labels
  {
    hide Restored;
    RelabelAt(g, cs);
    if forall v :: v in g.nodes ==> Restored(g.nodes[v].labels, cs, v) == g.nodes[v].labels {
      assert Relabel(g, cs).nodes == g.nodes;
    }
  }

  /** Up to the order of labels it is exact if and only if no empty label was taken off. */
  lemma SameIff(g: Graph, cs: seq<B.Command>)
    ensures SameButLabelOrder(Relabel(g, cs), g) <==>
      forall v :: v in g.nodes && "" in g.nodes[v].labels ==> "" !in Removals(cs, v)
  {
    RelabelAt(g, cs);
    forall v | v in g.nodes
      ensures forall l :: l in Relabel(g, cs).nodes[v].labels <==>
        l in g.nodes[v].labels && (l == "" ==> l !in Removals(cs, v))
    {
      RestoredElems(g.nodes[v].labels, cs, v);
    }
    hide Relabel, Removals;
    if v :| v in g.nodes && "" in g.nodes[v].labels && "" in Removals(cs, v) {
      assert "" !in Relabel(g, cs).nodes[v].labels;
    }
  }

  /** A label may be taken off from before the end and still come back in place, behind one added meanwhile. */
  lemma TakenFromTheMiddle(v: NodeId)
    ensures Restored(["a", "b"], [B.AddLabel(v, "c"), B.RemoveLabel(v, "b")], v) == ["a", "b"]
    ensures Restored(["a", "b"], [B.RemoveLabel(v, "a")], v) == ["b", "a"]
  {
    hide *;
    assert "a" != "b" by { assert "a"[0] != "b"[0]; }
    var one := [B.RemoveLabel(v, "b")];
    TakenOff("a", "b", v);
    TakenOff("b", "a", v);
    OtherLabel(B.AddLabel(v, "c"), one, v, ["a", "b"]);
    assert [B.AddLabel(v, "c")] + one == [B.AddLabel(v, "c"), B.RemoveLabel(v, "b")];
  }

  lemma TakenOff(x: string, y: string, v: NodeId)
    requires x != y && x != "" && y != ""
    ensures Removals([B.RemoveLabel(v, y)], v) == [y]
    ensures Restored([x, y], [B.RemoveLabel(v, y)], v) == [x, y] && Restored([y, x], [B.RemoveLabel(v, y)], v) == [x, y]
  {
    assert [B.RemoveLabel(v, y)][1..] == [] && [x, y][1..] == [y] && [y, x][1..] == [x] && [y][1..] == [] &&
      [x][1..] == [];
    assert Removals([B.RemoveLabel(v, y)], v) == [y] + Without([], y);
    assert Dropped([y], [y]) == [] && Dropped([x], [y]) == [x];
    assert Dropped([x, y], [y]) == [x] && Dropped([y, x], [y]) == [x];
    assert Picked([y], [x, y]) == [y] && Picked([y], [y, x]) == [y];
    assert [y][..0] == [] && Reversed([y]) == [y] + Reversed([]);
  }
}
