/** The two stores hand out different ids; up to a renaming of ids they stay the same graph. */
module Isomorphism {
  import opened Collections
  import opened Multigraph
  import opened GraphOps
  import opened LabelIndex
  import opened Backend
  import Slots
  import GraphStore
  import ConcurrentGraph

  /** A one-to-one renaming of the ids in K onto the ids in L. */
  ghost predicate Renames(f: map<nat, nat>, K: set<nat>, L: set<nat>) {
    && f.Keys == K
    && (forall i :: i in f ==> f[i] in L)
    && (forall j :: j in L ==> exists i :: i in f && f[i] == j)
    && (forall i, j :: i in f && j in f && f[i] == f[j] ==> i == j)
  }

  datatype Renaming = Renaming(nodes: map<NodeId, NodeId>, edges: map<EdgeId, EdgeId>)

  ghost predicate SameNodes(f: map<NodeId, NodeId>, a: Nodes, b: Nodes) {
    && Renames(f, a.Keys, b.Keys)
    && forall v :: v in a ==> f[v] in b && b[f[v]] == a[v].(id := f[v])
  }

  function Renamed(e: Edge, id: EdgeId, f: map<NodeId, NodeId>): Edge
    requires e.from in f && e.to in f
  {
    e.(id := id, from := f[e.from], to := f[e.to])
  }

  ghost predicate SameEdges(f: map<NodeId, NodeId>, k: map<EdgeId, EdgeId>, a: Edges, b: Edges) {
    && Renames(k, a.Keys, b.Keys)
    && forall e :: e in a ==> k[e] in b && a[e].from in f && a[e].to in f && b[k[e]] == Renamed(a[e], k[e], f)
  }

  ghost predicate Isomorphic(m: Renaming, g: Graph, h: Graph) {
    SameNodes(m.nodes, g.nodes, h.nodes) && SameEdges(m.nodes, m.edges, g.edges, h.edges)
  }

  // ------------------------------------------------------------------ related commands

  /** The ids name corresponding elements, or elements that are live on neither side. */
  ghost predicate Corresponds(f: map<nat, nat>, live: set<nat>, i: nat, j: nat) {
    if i in f then f[i] == j else j !in live
  }

  /** The same command as seen by the clients of the two sides. */
  ghost predicate Related(m: Renaming, h: Graph, c: Command, d: Command) {
    match c
    case CreateNode(labels) => d == c
    case CreateEdge(from, to, t) => d.CreateEdge? && d.edgeType == t
      && Corresponds(m.nodes, h.nodes.Keys, from, d.from) && Corresponds(m.nodes, h.nodes.Keys, to, d.to)
    case DeleteNode(v) => d.DeleteNode? && Corresponds(m.nodes, h.nodes.Keys, v, d.v)
    case DeleteEdge(e) => d.DeleteEdge? && Corresponds(m.edges, h.edges.Keys, e, d.e)
    case SetNodeProperty(v, key, value) => d.SetNodeProperty? && d.key == key && d.value == value
      && Corresponds(m.nodes, h.nodes.Keys, v, d.v)
    case RemoveNodeProperty(v, key) =>
      d.RemoveNodeProperty? && d.key == key && Corresponds(m.nodes, h.nodes.Keys, v, d.v)
    case AddLabel(v, name) => d.AddLabel? && d.name == name && Corresponds(m.nodes, h.nodes.Keys, v, d.v)
    case RemoveLabel(v, name) => d.RemoveLabel? && d.name == name && Corresponds(m.nodes, h.nodes.Keys, v, d.v)
    case SetEdgeProperty(e, key, value) => d.SetEdgeProperty? && d.key == key && d.value == value
      && Corresponds(m.edges, h.edges.Keys, e, d.e)
    case RemoveEdgeProperty(e, key) =>
      d.RemoveEdgeProperty? && d.key == key && Corresponds(m.edges, h.edges.Keys, e, d.e)
    case RestoreNode(v, labels) => d.RestoreNode? && d.labels == labels
    case RestoreEdge(e, from, to, t) => (d.RestoreEdge? && d.edgeType == t
      && Corresponds(m.nodes, h.nodes.Keys, from, d.from) && Corresponds(m.nodes, h.nodes.Keys, to, d.to))
  }

  /** How the renaming grows and shrinks with a pair of commands. */
  function Next(m: Renaming, g: Graph, c: Command, i: nat, d: Command, j: nat): Renaming {
    match c
    case CreateNode(labels) => m.(nodes := m.nodes[i := j])
    case CreateEdge(from, to, t) => if from in g.nodes && to in g.nodes then m.(edges := m.edges[i := j]) else m
    case DeleteNode(v) => if v in g.nodes then Renaming(m.nodes - {v}, m.edges - Incident(g, v)) else m
    case DeleteEdge(e) => m.(edges := m.edges - {e})
    case RestoreNode(v, labels) => if d.RestoreNode? then m.(nodes := m.nodes[v := d.v]) else m
    case RestoreEdge(e, from, to, t) =>
      if from in g.nodes && to in g.nodes && d.RestoreEdge? then m.(edges := m.edges[e := d.e]) else m
    case _ => m
  }

  // ------------------------------------------------------------------------- renamings

  lemma RenamesPut(f: map<nat, nat>, K: set<nat>, L: set<nat>, i: nat, j: nat)
    requires Renames(f, K, L) && i !in K && j !in L
    ensures Renames(f[i := j], K + {i}, L + {j})
  {
    var h := f[i := j];
    forall y | y in L + {j} ensures exists x :: x in h && h[x] == y {
      if y == j {
        assert i in h && h[i] == y;
      } else {
        var x :| x in f && f[x] == y;
        assert x in h && h[x] == y;
      }
    }
  }

  /** Corresponding sets of ids can be left out on both sides. */
  lemma RenamesDrop(f: map<nat, nat>, K: set<nat>, L: set<nat>, A: set<nat>, B: set<nat>)
    requires Renames(f, K, L) && forall i :: i in f ==> (i in A <==> f[i] in B)
    ensures Renames(f - A, K - A, L - B)
  {
    var h := f - A;
    forall y | y in L - B ensures exists x :: x in h && h[x] == y {
      var x :| x in f && f[x] == y;
      assert x in h && h[x] == y;
    }
  }

  lemma CorrespondsLive(f: map<nat, nat>, K: set<nat>, L: set<nat>, i: nat, j: nat)
    requires Renames(f, K, L) && Corresponds(f, L, i, j)
    ensures i in K <==> j in L
    ensures i in K ==> f[i] == j
  {
  }

  // ----------------------------------------------------------------------------- steps

  lemma RenamesParts(f: map<nat, nat>, K: set<nat>, L: set<nat>, i: nat)
    requires Renames(f, K, L)
    ensures f.Keys == K && (forall x :: x in f ==> f[x] in L)
    ensures i in f ==> forall x :: x in f && x != i ==> f[x] != f[i]
  {
  }

  lemma SameNodesPut(f: map<NodeId, NodeId>, a: Nodes, b: Nodes, i: NodeId, j: NodeId, n: Node)
    requires SameNodes(f, a, b) && if i in a then i in f && f[i] == j else j !in b
    ensures SameNodes(f[i := j], a[i := n], b[j := n.(id := j)])
  {
    RenamesParts(f, a.Keys, b.Keys, i);
    if i in a {
      assert f[i := j] == f && a[i := n].Keys == a.Keys && b[j := n.(id := j)].Keys == b.Keys;
    } else {
      RenamesPut(f, a.Keys, b.Keys, i, j);
      assert a[i := n].Keys == a.Keys + {i} && b[j := n.(id := j)].Keys == b.Keys + {j};
    }
    hide Renames;
    assert forall x :: x in a && x != i ==> f[x] != j;
  }

  /** More names do not disturb the edges. */
  lemma SameEdgesMoreNodes(f: map<NodeId, NodeId>, k: map<EdgeId, EdgeId>, a: Edges, b: Edges, i: NodeId, j: NodeId)
    requires SameEdges(f, k, a, b) && i !in f
    ensures SameEdges(f[i := j], k, a, b)
  {
    hide Renames;
    forall e | e in a ensures a[e].from in f && a[e].to in f && Renamed(a[e], 0, f[i := j]) == Renamed(a[e], 0, f) {
    }
  }

  lemma SameAddNode(m: Renaming, g: Graph, h: Graph, i: NodeId, j: NodeId, labels: seq<string>)
    requires Isomorphic(m, g, h) && i !in g.nodes && j !in h.nodes
    ensures Isomorphic(m.(nodes := m.nodes[i := j]), AddNode(g, i, labels), AddNode(h, j, labels))
  {
    RenamesParts(m.nodes, g.nodes.Keys, h.nodes.Keys, i);
    hide Renames, SameNodes, SameEdges;
    SameNodesPut(m.nodes, g.nodes, h.nodes, i, j, Node(i, labels, map[]));
    SameEdgesMoreNodes(m.nodes, m.edges, g.edges, h.edges, i, j);
  }

  /** Write an edge on both sides, under new ids or over corresponding ones. */
  lemma SameEdgesPut(f: map<NodeId, NodeId>, k: map<EdgeId, EdgeId>, a: Edges, b: Edges, i: EdgeId, j: EdgeId, e: Edge)
    requires SameEdges(f, k, a, b) && e.from in f && e.to in f
    requires if i in a then i in k && k[i] == j else j !in b
    ensures SameEdges(f, k[i := j], a[i := e], b[j := Renamed(e, j, f)])
  {
    RenamesParts(k, a.Keys, b.Keys, i);
    if i in a {
      assert k[i := j] == k && a[i := e].Keys == a.Keys && b[j := Renamed(e, j, f)].Keys == b.Keys;
    } else {
      RenamesPut(k, a.Keys, b.Keys, i, j);
      assert a[i := e].Keys == a.Keys + {i} && b[j := Renamed(e, j, f)].Keys == b.Keys + {j};
    }
    hide Renames;
    assert forall x :: x in a && x != i ==> k[x] != j;
  }

  lemma SameAddEdge(m: Renaming, g: Graph, h: Graph, i: EdgeId, j: EdgeId, from: NodeId, to: NodeId, t: string)
    requires Isomorphic(m, g, h) && i !in g.edges && j !in h.edges && from in g.nodes && to in g.nodes
    ensures from in m.nodes && to in m.nodes
    ensures Isomorphic(m.(edges := m.edges[i := j]), AddEdge(g, i, from, to, t),
                       AddEdge(h, j, m.nodes[from], m.nodes[to], t))
  {
    RenamesParts(m.nodes, g.nodes.Keys, h.nodes.Keys, from);
    hide Renames, SameEdges;
    SameEdgesPut(m.nodes, m.edges, g.edges, h.edges, i, j, Edge(i, t, from, to, map[]));
  }

  lemma SameDropEdge(m: Renaming, g: Graph, h: Graph, i: EdgeId, j: EdgeId)
    requires Isomorphic(m, g, h) && Corresponds(m.edges, h.edges.Keys, i, j)
    ensures Isomorphic(m.(edges := m.edges - {i}), DropEdge(g, i), DropEdge(h, j))
  {
    CorrespondsLive(m.edges, g.edges.Keys, h.edges.Keys, i, j);
    RenamesDrop(m.edges, g.edges.Keys, h.edges.Keys, {i}, {j});
    assert DropEdge(g, i).edges.Keys == g.edges.Keys - {i} && DropEdge(h, j).edges.Keys == h.edges.Keys - {j};
  }

  lemma SameIncidence(m: Renaming, g: Graph, h: Graph, v: NodeId)
    requires Isomorphic(m, g, h) && v in g.nodes
    ensures forall e :: e in m.edges ==>
      (e in Out(g, v) <==> m.edges[e] in Out(h, m.nodes[v])) && (e in In(g, v) <==> m.edges[e] in In(h, m.nodes[v]))
  {
  }

  lemma SameDropNode(m: Renaming, g: Graph, h: Graph, v: NodeId)
    requires Isomorphic(m, g, h) && v in g.nodes
    ensures m.nodes[v] in h.nodes
    ensures Isomorphic(Renaming(m.nodes - {v}, m.edges - Incident(g, v)), DropNode(g, v), DropNode(h, m.nodes[v]))
  {
    var w := m.nodes[v];
    assert w in h.nodes;
    SameIncidence(m, g, h, v);
    RenamesDrop(m.nodes, g.nodes.Keys, h.nodes.Keys, {v}, {w});
    RenamesDrop(m.edges, g.edges.Keys, h.edges.Keys, Incident(g, v), Incident(h, w));
    assert DropNode(g, v).nodes.Keys == g.nodes.Keys - {v} && DropNode(h, w).nodes.Keys == h.nodes.Keys - {w};
    assert DropNode(g, v).edges.Keys == g.edges.Keys - Incident(g, v) &&
      DropNode(h, w).edges.Keys == h.edges.Keys - Incident(h, w);
    SameDropNodeEdges(m, g, h, v);
    assert SameNodes(m.nodes - {v}, g.nodes - {v}, h.nodes - {w});
  }

  lemma SameDropNodeEdges(m: Renaming, g: Graph, h: Graph, v: NodeId)
    requires Isomorphic(m, g, h) && v in g.nodes
    ensures forall e :: e in g.edges && e !in Incident(g, v) ==>
      && m.edges[e] in h.edges && m.edges[e] !in Incident(h, m.nodes[v])
      && g.edges[e].from in m.nodes - {v} && g.edges[e].to in m.nodes - {v}
      && h.edges[m.edges[e]] == Renamed(g.edges[e], m.edges[e], m.nodes - {v})
  {
    SameIncidence(m, g, h, v);
  }

  lemma SamePutNode(m: Renaming, g: Graph, h: Graph, v: NodeId, n: Node)
    requires Isomorphic(m, g, h) && v in g.nodes
    ensures v in m.nodes && m.nodes[v] in h.nodes
    ensures Isomorphic(m, Graph(g.nodes[v := n], g.edges), Graph(h.nodes[m.nodes[v] := n.(id := m.nodes[v])], h.edges))
  {
    RenamesParts(m.nodes, g.nodes.Keys, h.nodes.Keys, v);
    hide Renames, SameNodes, SameEdges;
    SameNodesPut(m.nodes, g.nodes, h.nodes, v, m.nodes[v], n);
    assert m.nodes[v := m.nodes[v]] == m.nodes;
  }

  lemma SamePutEdge(m: Renaming, g: Graph, h: Graph, e: EdgeId, p: Properties)
    requires Isomorphic(m, g, h) && e in g.edges
    ensures e in m.edges && m.edges[e] in h.edges
    ensures Isomorphic(m, PutEdgeProperties(g, e, p), PutEdgeProperties(h, m.edges[e], p))
  {
    RenamesParts(m.edges, g.edges.Keys, h.edges.Keys, e);
    hide Renames;
    var after := g.edges[e].(properties := p);
    assert h.edges[m.edges[e]].(properties := p) == Renamed(after, m.edges[e], m.nodes);
    hide SameEdges;
    SameEdgesPut(m.nodes, m.edges, g.edges, h.edges, e, m.edges[e], after);
    assert m.edges[e := m.edges[e]] == m.edges;
  }

  lemma SameRecords(m: Renaming, g: Graph, h: Graph)
    requires Isomorphic(m, g, h)
    ensures Renames(m.nodes, g.nodes.Keys, h.nodes.Keys) && Renames(m.edges, g.edges.Keys, h.edges.Keys)
    ensures forall v :: v in g.nodes ==> m.nodes[v] in h.nodes && h.nodes[m.nodes[v]] == g.nodes[v].(id := m.nodes[v])
    ensures forall e :: e in g.edges ==>
      m.edges[e] in h.edges && h.edges[m.edges[e]].properties == g.edges[e].properties
  {
    hide Renames;
  }

  /** Related commands on isomorphic graphs leave isomorphic graphs, whatever ids the sides pick. */
  lemma Simulates(m: Renaming, g: Graph, h: Graph, c: Command, i: nat, d: Command, j: nat)
    requires Isomorphic(m, g, h) && Related(m, h, c, d)
    requires Allowed(g, c) && Allowed(h, d) && Picks(g, c, i) && Picks(h, d, j)
    ensures Isomorphic(Next(m, g, c, i, d, j), Apply(g, c, i), Apply(h, d, j))
  {
    hide Isomorphic, Renames;
    SameRecords(m, g, h);
    match c
    case CreateNode(labels) => SameAddNode(m, g, h, i, j, labels);
    case CreateEdge(from, to, t) =>
      CorrespondsLive(m.nodes, g.nodes.Keys, h.nodes.Keys, from, d.from);
      CorrespondsLive(m.nodes, g.nodes.Keys, h.nodes.Keys, to, d.to);
      if from in g.nodes && to in g.nodes {
        SameAddEdge(m, g, h, i, j, from, to, t);
      }
    case RestoreEdge(e, from, to, t) =>
      CorrespondsLive(m.nodes, g.nodes.Keys, h.nodes.Keys, from, d.from);
      CorrespondsLive(m.nodes, g.nodes.Keys, h.nodes.Keys, to, d.to);
      if from in g.nodes && to in g.nodes {
        SameAddEdge(m, g, h, e, d.e, from, to, t);
      }
    case RestoreNode(v, labels) => SameAddNode(m, g, h, v, d.v, labels);
    case DeleteNode(v) =>
      CorrespondsLive(m.nodes, g.nodes.Keys, h.nodes.Keys, v, d.v);
      if v in g.nodes {
        SameDropNode(m, g, h, v);
      }
    case DeleteEdge(e) => SameDropEdge(m, g, h, e, d.e);
    case SetEdgeProperty(e, _, _) => SimulatesEdgeWrite(m, g, h, c, d);
    case RemoveEdgeProperty(e, _) => SimulatesEdgeWrite(m, g, h, c, d);
    case _ => SimulatesNodeWrite(m, g, h, c, d);
  }

  lemma SimulatesEdgeWrite(m: Renaming, g: Graph, h: Graph, c: Command, d: Command)
    requires Isomorphic(m, g, h) && Related(m, h, c, d) && (c.SetEdgeProperty? || c.RemoveEdgeProperty?)
    ensures Isomorphic(m, Apply(g, c, 0), Apply(h, d, 0))
  {
    hide Isomorphic, Renames;
    SameRecords(m, g, h);
    CorrespondsLive(m.edges, g.edges.Keys, h.edges.Keys, c.e, d.e);
    if c.e in g.edges {
      SamePutEdge(m, g, h, c.e, Apply(g, c, 0).edges[c.e].properties);
    }
  }

  lemma SimulatesNodeWrite(m: Renaming, g: Graph, h: Graph, c: Command, d: Command)
    requires Isomorphic(m, g, h) && Related(m, h, c, d)
    requires c.SetNodeProperty? || c.RemoveNodeProperty? || c.AddLabel? || c.RemoveLabel?
    ensures Isomorphic(m, Apply(g, c, 0), Apply(h, d, 0))
  {
    hide Isomorphic, Renames;
    SameRecords(m, g, h);
    CorrespondsLive(m.nodes, g.nodes.Keys, h.nodes.Keys, c.v, d.v);
    if c.v in g.nodes {
      SamePutNode(m, g, h, c.v, Apply(g, c, 0).nodes[c.v]);
    }
  }

  // -------------------------------------------------------------------------- whole runs

  /** The graphs a backend goes through while it executes commands with the ids it picks. */
  datatype Trace = Trace(graphs: seq<Graph>, commands: seq<Command>, ids: seq<nat>)

  ghost predicate StepAt(t: Trace, n: nat)
    requires |t.commands| == |t.ids| && |t.graphs| == |t.commands| + 1 && n < |t.commands|
  {
    && Allowed(t.graphs[n], t.commands[n]) && Picks(t.graphs[n], t.commands[n], t.ids[n])
    && t.graphs[n + 1] == Apply(t.graphs[n], t.commands[n], t.ids[n])
  }

  ghost predicate IsRun(t: Trace) {
    && |t.commands| == |t.ids| && |t.graphs| == |t.commands| + 1 && t.graphs[0] == Graph(map[], map[])
    && forall n :: 0 <= n < |t.commands| ==> StepAt(t, n)
  }

  /** The renaming before the n-th pair of commands. */
  ghost function RenamingAt(t: Trace, u: Trace, n: nat): Renaming
    requires IsRun(t) && IsRun(u) && |t.commands| == |u.commands| && n <= |t.commands|
  {
    if n == 0 then Renaming(map[], map[])
    else Next(RenamingAt(t, u, n - 1), t.graphs[n - 1], t.commands[n - 1], t.ids[n - 1], u.commands[n - 1],
              u.ids[n - 1])
  }

  /** Two clients that do the same to the elements they know. */
  ghost predicate Twins(t: Trace, u: Trace) {
    && IsRun(t) && IsRun(u) && |t.commands| == |u.commands|
    && forall n :: 0 <= n < |t.commands| ==> Related(RenamingAt(t, u, n), u.graphs[n], t.commands[n], u.commands[n])
  }

  /** However the stores choose ids, at every point of a common run they hold isomorphic graphs. */
  lemma {:induction false} TwinsStayIsomorphic(t: Trace, u: Trace, n: nat)
    requires Twins(t, u) && n <= |t.commands|
    ensures Isomorphic(RenamingAt(t, u, n), t.graphs[n], u.graphs[n])
  {
    hide Related, Next, Apply, Allowed, Picks, Isomorphic;
    if n == 0 {
      EmptyIsomorphic();
    } else {
      TwinsStayIsomorphic(t, u, n - 1);
      assert StepAt(t, n - 1) && StepAt(u, n - 1);
      Simulates(RenamingAt(t, u, n - 1), t.graphs[n - 1], u.graphs[n - 1],
                t.commands[n - 1], t.ids[n - 1], u.commands[n - 1], u.ids[n - 1]);
    }
  }

  lemma EmptyIsomorphic()
    ensures Isomorphic(Renaming(map[], map[]), Graph(map[], map[]), Graph(map[], map[]))
  {
  }

  /** Running commands on either store leaves such a trace. */
  method Record(b: Backend, commands: seq<Command>) returns (done: nat, ghost t: Trace)
    requires b.Valid() && b.Abs() == Graph(map[], map[])
    modifies b.Objects()
    ensures IsRun(t) && done <= |commands| && t.commands == commands[..done] && b.Valid()
    ensures t.graphs[done] == b.Abs() && (done < |commands| ==> !Allowed(b.Abs(), commands[done]))
  {
    hide Apply, Allowed, Picks, StepAt, WellFormed, Indexed, Tidy, GraphStore.Adjacent, ConcurrentGraph.Adjacent;
    hide Slots.Live, Slots.FreeSome, Slots.FreeAll, ConcurrentGraph.Below;
    t, done := Trace([b.Abs()], [], []), 0;
    while done < |commands|
      invariant done <= |commands| && IsRun(t) && t.commands == commands[..done]
      invariant b.Valid() && t.graphs[done] == b.Abs()
    {
      var ok := b.Admits(commands[done]);
      if !ok {
        return;
      }
      var id := b.Execute(commands[done]);
      ExtendRun(t, commands[done], id, b.Abs());
      t := Trace(t.graphs + [b.Abs()], t.commands + [commands[done]], t.ids + [id]);
      done := done + 1;
    }
  }

  lemma ExtendRun(t: Trace, c: Command, id: nat, g: Graph)
    requires IsRun(t)
    requires Allowed(t.graphs[|t.commands|], c) && Picks(t.graphs[|t.commands|], c, id)
    requires g == Apply(t.graphs[|t.commands|], c, id)
    ensures IsRun(Trace(t.graphs + [g], t.commands + [c], t.ids + [id]))
  {
    hide Apply, Allowed, Picks;
    var u := Trace(t.graphs + [g], t.commands + [c], t.ids + [id]);
    forall n | 0 <= n < |u.commands| ensures StepAt(u, n) {
      if n < |t.commands| {
        assert StepAt(t, n);
      }
    }
  }

  /** Isomorphic graphs answer the same queries: labels, adjacency and sizes. */
  lemma SameAnswers(m: Renaming, g: Graph, h: Graph, v: NodeId, l: string)
    requires Isomorphic(m, g, h) && v in g.nodes
    ensures Labelled(h.nodes, l) == set x | x in Labelled(g.nodes, l) :: m.nodes[x]
    ensures Out(h, m.nodes[v]) == set e | e in Out(g, v) :: m.edges[e]
    ensures In(h, m.nodes[v]) == set e | e in In(g, v) :: m.edges[e]
    ensures |h.nodes| == |g.nodes| && |h.edges| == |g.edges|
  {
    SameRecords(m, g, h);
    hide Isomorphic, Renames, Labelled, Out, In;
    RenamesSize(m.nodes, g.nodes.Keys, h.nodes.Keys);
    RenamesSize(m.edges, g.edges.Keys, h.edges.Keys);
    SameLabelled(m, g, h, l);
    SameAdjacent(m, g, h, v);
  }

  lemma SameAdjacent(m: Renaming, g: Graph, h: Graph, v: NodeId)
    requires Isomorphic(m, g, h) && v in g.nodes
    ensures Out(h, m.nodes[v]) == set e | e in Out(g, v) :: m.edges[e]
    ensures In(h, m.nodes[v]) == set e | e in In(g, v) :: m.edges[e]
  {
    SameIncidence(m, g, h, v);
    forall e | e in h.edges ensures exists x :: x in m.edges && m.edges[x] == e {
    }
    assert forall e :: e in Out(g, v) ==> e in m.edges && m.edges[e] in h.edges;
  }

  lemma {:induction false} RenamesSize(f: map<nat, nat>, K: set<nat>, L: set<nat>)
    requires Renames(f, K, L)
    ensures |K| == |L|
    decreases |K|
  {
    if K == {} {
      assert L == {};
    } else {
      var i :| i in K;
      RenamesDrop(f, K, L, {i}, {f[i]});
      RenamesSize(f - {i}, K - {i}, L - {f[i]});
    }
  }

  lemma SameLabelled(m: Renaming, g: Graph, h: Graph, l: string)
    requires Isomorphic(m, g, h)
    ensures Labelled(h.nodes, l) == set x | x in Labelled(g.nodes, l) :: m.nodes[x]
  {
    forall w | w in Labelled(h.nodes, l) ensures w in (set x | x in Labelled(g.nodes, l) :: m.nodes[x]) {
      var x :| x in m.nodes && m.nodes[x] == w;
      assert x in Labelled(g.nodes, l);
    }
  }

  // -------------------------------------------------------------------- in lockstep

  /** The command as the client of the shared store gives it: live ids translated, others replaced by ids
      that are not live there. */
  function Translate(m: Renaming, node: NodeId, edge: EdgeId, c: Command): Command {
    match c
    case CreateNode(labels) => c
    case CreateEdge(from, to, t) => CreateEdge(Name(m.nodes, from, node), Name(m.nodes, to, node), t)
    case DeleteNode(v) => DeleteNode(Name(m.nodes, v, node))
    case DeleteEdge(e) => DeleteEdge(Name(m.edges, e, edge))
    case SetNodeProperty(v, key, value) => SetNodeProperty(Name(m.nodes, v, node), key, value)
    case RemoveNodeProperty(v, key) => RemoveNodeProperty(Name(m.nodes, v, node), key)
    case AddLabel(v, name) => AddLabel(Name(m.nodes, v, node), name)
    case RemoveLabel(v, name) => RemoveLabel(Name(m.nodes, v, node), name)
    case SetEdgeProperty(e, key, value) => SetEdgeProperty(Name(m.edges, e, edge), key, value)
    case RemoveEdgeProperty(e, key) => RemoveEdgeProperty(Name(m.edges, e, edge), key)
    case RestoreNode(v, labels) => RestoreNode(node, labels)
    case RestoreEdge(e, from, to, t) => RestoreEdge(edge, Name(m.nodes, from, node), Name(m.nodes, to, node), t)
  }

  function Name(f: map<nat, nat>, i: nat, other: nat): nat { if i in f then f[i] else other }

  /** Every command that one side allows has a related one that the other side allows. */
  lemma TwinCommand(m: Renaming, g: Graph, h: Graph, c: Command, node: NodeId, edge: EdgeId)
    requires Isomorphic(m, g, h) && Allowed(g, c) && node !in h.nodes && edge !in h.edges
    ensures Related(m, h, c, Translate(m, node, edge, c)) && Allowed(h, Translate(m, node, edge, c))
  {
    hide Isomorphic;
  }

  /** The client's table after a pair of commands; `gone` are the edges that went with a deleted node. */
  function NextTable(m: Renaming, gone: set<EdgeId>, c: Command, i: nat, d: Command, j: nat): Renaming {
    match c
    case CreateNode(labels) => m.(nodes := m.nodes[i := j])
    case CreateEdge(from, to, t) => if from in m.nodes && to in m.nodes then m.(edges := m.edges[i := j]) else m
    case DeleteNode(v) => if v in m.nodes then Renaming(m.nodes - {v}, m.edges - gone) else m
    case DeleteEdge(e) => m.(edges := m.edges - {e})
    case RestoreNode(v, labels) => if d.RestoreNode? then m.(nodes := m.nodes[v := d.v]) else m
    case RestoreEdge(e, from, to, t) =>
      if from in m.nodes && to in m.nodes && d.RestoreEdge? then m.(edges := m.edges[e := d.e]) else m
    case _ => m
  }

  lemma NextTableIsNext(m: Renaming, g: Graph, h: Graph, gone: set<EdgeId>, c: Command, i: nat, d: Command, j: nat)
    requires Isomorphic(m, g, h) && (c.DeleteNode? ==> gone == Incident(g, c.v))
    ensures NextTable(m, gone, c, i, d, j) == Next(m, g, c, i, d, j)
  {
    SameRecords(m, g, h);
    RenamesParts(m.nodes, g.nodes.Keys, h.nodes.Keys, 0);
    hide Isomorphic, Renames, Incident;
  }

  /** Both stores carry out the same commands in lockstep, the shared one under its own ids; at every point
      they hold isomorphic graphs, and no command is allowed on one side only. */
  method RunTwins(slots: GraphStore.GraphStore, shared: ConcurrentGraph.ConcurrentGraph, commands: seq<Command>)
    returns (done: nat, m: Renaming)
    requires slots.Valid() && slots.Abs() == Graph(map[], map[])
    requires shared.Valid() && shared.Abs() == Graph(map[], map[])
    modifies slots, shared
    ensures slots.Valid() && shared.Valid() && Isomorphic(m, slots.Abs(), shared.Abs())
    ensures done <= |commands| && (done < |commands| ==> !Allowed(slots.Abs(), commands[done]))
  {
    hide Apply, Allowed, Picks, WellFormed, Indexed, Tidy, GraphStore.Adjacent, ConcurrentGraph.Adjacent, Isomorphic;
    hide Slots.Live, Slots.FreeSome, Slots.FreeAll, Related, Next, NextTable, Translate, Out, In;
    done, m := 0, Renaming(map[], map[]);
    EmptyIsomorphic();
    var a, b := Slotted(slots), Shared(shared);
    while done < |commands|
      invariant slots.Valid() && shared.Valid() && Isomorphic(m, slots.Abs(), shared.Abs()) && done <= |commands|
    {
      var c := commands[done];
      var ok := a.Admits(c);
      if !ok {
        return;
      }
      var gone: set<EdgeId> := {};
      if c.DeleteNode? {
        var outgoing := a.OutgoingIds(c.v);
        var incoming := a.IncomingIds(c.v);
        gone := outgoing + incoming;
      }
      ghost var g, h := slots.Abs(), shared.Abs();
      var d := Translate(m, shared.nextNodeId, shared.nextEdgeId, c);
      TwinCommand(m, g, h, c, shared.nextNodeId, shared.nextEdgeId);
      var i := a.Execute(c);
      var j := b.Execute(d);
      Simulates(m, g, h, c, i, d, j);
      NextTableIsNext(m, g, h, gone, c, i, d, j);
      m := NextTable(m, gone, c, i, d, j);
      done := done + 1;
    }
  }
}
