/** Kahn's topological sort, and cycle detection and listing by depth-first search. */
module Cycles {
  import opened Collections
  import opened Multigraph

  ghost predicate Cyclic(g: Graph) {
    exists u, es :: es != [] && IsWalk(g, u, es, u)
  }

  ghost predicate Step(g: Graph, u: NodeId, v: NodeId) {
    exists e :: e in g.edges && g.edges[e].from == u && g.edges[e].to == v
  }

  lemma ClosingEdge(g: Graph, u: NodeId, e: EdgeId)
    requires e in g.edges && g.edges[e].to == u && Reach(g, u, g.edges[e].from)
    ensures Cyclic(g)
  {
    var es :| IsWalk(g, u, es, g.edges[e].from);
    WalkSnoc(g, u, es, e);
    assert es + [e] != [];
  }

  // --------------------------------------------------- orders that forbid cycles

  /** A duplicate-free order in which every edge out of a listed node goes to an earlier one. */
  ghost predicate BackwardOrder(g: Graph, order: seq<NodeId>) {
    && NoDup(order)
    && forall j, e :: 0 <= j < |order| && e in g.edges && g.edges[e].from == order[j] ==> g.edges[e].to in order[..j]
  }

  lemma {:induction false} WalkGoesBack(g: Graph, order: seq<NodeId>, j: nat, es: seq<EdgeId>, v: NodeId)
    requires BackwardOrder(g, order) && j < |order| && es != [] && IsWalk(g, order[j], es, v)
    ensures v in order[..j]
    decreases |es|
  {
    var e := es[|es| - 1];
    var pre := es[..|es| - 1];
    if pre != [] {
      WalkGoesBack(g, order, j, pre, g.edges[e].from);
      var k :| 0 <= k < j && order[k] == g.edges[e].from;
      assert v in order[..k];
    }
  }

  lemma BackwardOrderAcyclic(g: Graph, order: seq<NodeId>)
    requires WellFormed(g) && BackwardOrder(g, order) && Elems(order) == g.nodes.Keys
    ensures !Cyclic(g)
  {
    if Cyclic(g) {
      var u, es :| es != [] && IsWalk(g, u, es, u);
      assert g.edges[es[|es| - 1]].to == u && u in Elems(order);
      var j :| 0 <= j < |order| && order[j] == u;
      WalkGoesBack(g, order, j, es, u);
      assert false;
    }
  }

  /** A topological order: every edge goes from an earlier entry to a later one. */
  ghost predicate Topological(g: Graph, order: seq<NodeId>) {
    && NoDup(order) && Elems(order) == g.nodes.Keys
    && forall i, e :: 0 <= i < |order| && e in g.edges && g.edges[e].to == order[i] ==> g.edges[e].from in order[..i]
  }

  lemma {:induction false} WalkCameEarlier(g: Graph, order: seq<NodeId>, u: NodeId, es: seq<EdgeId>, j: nat)
    requires Topological(g, order) && j < |order| && es != [] && IsWalk(g, u, es, order[j])
    ensures u in order[..j]
    decreases |es|
  {
    var x := g.edges[es[|es| - 1]].from;
    var pre := es[..|es| - 1];
    if pre != [] {
      var k :| 0 <= k < j && order[k] == x;
      WalkCameEarlier(g, order, u, pre, k);
    }
  }

  lemma TopologicalAcyclic(g: Graph, order: seq<NodeId>)
    requires WellFormed(g) && Topological(g, order)
    ensures !Cyclic(g)
  {
    if Cyclic(g) {
      var u, es :| es != [] && IsWalk(g, u, es, u);
      assert g.edges[es[|es| - 1]].to == u && u in Elems(order);
      var j :| 0 <= j < |order| && order[j] == u;
      WalkCameEarlier(g, order, u, es, j);
      assert false;
    }
  }

  ghost predicate HasPredecessorIn(g: Graph, s: set<NodeId>, x: NodeId) {
    exists e :: e in In(g, x) && g.edges[e].from in s
  }

  /** Walking backwards forever inside a finite set closes a cycle. */
  lemma {:induction false} BackwardsForever(g: Graph, s: set<NodeId>, v: NodeId, seen: set<NodeId>)
    requires forall x :: x in s ==> HasPredecessorIn(g, s, x)
    requires v in s && seen <= s && forall t :: t in seen ==> Reach(g, v, t)
    ensures Cyclic(g)
    decreases s - seen
  {
    hide Reach, Cyclic;
    assert HasPredecessorIn(g, s, v);
    var e :| e in In(g, v) && g.edges[e].from in s;
    var u := g.edges[e].from;
    EdgeWalk(g, e);
    ReachRefl(g, u);
    if u in seen {
      ClosingEdge(g, v, e);
    } else {
      forall t | t in seen ensures Reach(g, u, t) {
        ReachTrans(g, u, v, t);
      }
      BackwardsForever(g, s, u, seen + {u});
    }
  }

  // ------------------------------------------------------- Kahn's topological sort

  /** The edges into v that have not been counted down yet. */
  function Pending(g: Graph, removed: set<NodeId>, todo: set<EdgeId>, v: NodeId): set<EdgeId> {
    set e | e in In(g, v) && (g.edges[e].from !in removed || e in todo)
  }

  /** How many edges into v are outside `todo`. */
  ghost function Counted(g: Graph, todo: set<EdgeId>, v: NodeId): nat {
    |In(g, v) - todo|
  }

  lemma CountUp(g: Graph, todo: set<EdgeId>, e: EdgeId)
    requires e in todo && todo <= g.edges.Keys
    ensures forall v :: v != g.edges[e].to ==> Counted(g, todo - {e}, v) == Counted(g, todo, v)
    ensures Counted(g, todo - {e}, g.edges[e].to) == Counted(g, todo, g.edges[e].to) + 1
  {
    forall v | v != g.edges[e].to ensures In(g, v) - (todo - {e}) == In(g, v) - todo {
    }
    var v := g.edges[e].to;
    assert In(g, v) - (todo - {e}) == (In(g, v) - todo) + {e};
  }

  lemma CountedEnds(g: Graph)
    ensures forall v :: Counted(g, g.edges.Keys, v) == 0 && Counted(g, {}, v) == |In(g, v)|
  {
    forall v ensures Counted(g, g.edges.Keys, v) == 0 && Counted(g, {}, v) == |In(g, v)| {
      assert In(g, v) - g.edges.Keys == {} && In(g, v) - {} == In(g, v);
    }
  }

  method InDegrees(g: Graph) returns (degree: map<NodeId, nat>)
    requires WellFormed(g)
    ensures degree.Keys == g.nodes.Keys
    ensures forall v :: v in degree ==> degree[v] == |In(g, v)|
  {
    hide Counted, In;
    CountedEnds(g);
    degree := map v | v in g.nodes :: 0;
    var todo := g.edges.Keys;
    while todo != {}
      invariant todo <= g.edges.Keys && degree.Keys == g.nodes.Keys
      invariant forall v :: v in degree ==> degree[v] == Counted(g, todo, v)
    {
      var e :| e in todo;
      var to := g.edges[e].to;
      CountUp(g, todo, e);
      todo := todo - {e};
      degree := degree[to := degree[to] + 1];
    }
  }

  /** Between two pops: counts are the edges from nodes still to come; zero means listed or queued. */
  ghost predicate KahnState(g: Graph, degree: map<NodeId, nat>, removed: set<NodeId>, todo: set<EdgeId>,
                            result: seq<NodeId>, queue: seq<NodeId>) {
    && degree.Keys == g.nodes.Keys
    && NoDup(result + queue)
    && Counts(g, degree, removed, todo)
    && (forall v :: v in result + queue <==> v in g.nodes && degree[v] == 0)
    && ListedInOrder(g, result)
  }

  ghost predicate Counts(g: Graph, degree: map<NodeId, nat>, removed: set<NodeId>, todo: set<EdgeId>)
    requires degree.Keys == g.nodes.Keys
  {
    forall v :: v in g.nodes ==> degree[v] == |Pending(g, removed, todo, v)|
  }

  ghost predicate ListedInOrder(g: Graph, result: seq<NodeId>) {
    forall i, e :: 0 <= i < |result| && e in g.edges && g.edges[e].to == result[i] ==> g.edges[e].from in result[..i]
  }

  method TopologicalSort(g: Graph) returns (r: Option<seq<NodeId>>)
    requires WellFormed(g)
    ensures r.Some? <==> !Cyclic(g)
    ensures r.Some? ==> Topological(g, r.value)
  {
    hide Cyclic, Topological;
    var degree := InDegrees(g);
    var queue := Sources(g, degree);
    var result: seq<NodeId> := [];
    KahnStart(g, degree, queue);
    while queue != []
      invariant KahnState(g, degree, Elems(result), {}, result, queue)
      decreases g.nodes.Keys - Elems(result)
    {
      hide KahnState;
      ghost var before := Elems(result);
      degree, result, queue := PopSource(g, degree, result, queue);
      assert Elems(result) == before + {result[|result| - 1]};
    }
    KahnEnd(g, degree, result);
    r := if |result| == |g.nodes| then Some(result) else None;
  }

  lemma KahnStart(g: Graph, degree: map<NodeId, nat>, queue: seq<NodeId>)
    requires WellFormed(g) && degree.Keys == g.nodes.Keys && NoDup(queue)
    requires forall v :: v in degree ==> degree[v] == |In(g, v)|
    requires forall v :: v in queue <==> v in g.nodes && degree[v] == 0
    ensures KahnState(g, degree, Elems<NodeId>([]), {}, [], queue)
  {
    assert forall v :: Pending(g, Elems<NodeId>([]), {}, v) == In(g, v);
    assert [] + queue == queue;
  }

  /** When the queue runs dry, all nodes being listed and acyclicity are the same thing. */
  lemma KahnEnd(g: Graph, degree: map<NodeId, nat>, result: seq<NodeId>)
    requires WellFormed(g) && KahnState(g, degree, Elems(result), {}, result, [])
    ensures |result| == |g.nodes| <==> !Cyclic(g)
    ensures |result| == |g.nodes| ==> Topological(g, result)
  {
    hide Cyclic, Pending;
    assert result + [] == result;
    NoDupCardinality(result);
    if |result| == |g.nodes| {
      SubsetSameSize(Elems(result), g.nodes.Keys);
      TopologicalAcyclic(g, result);
    } else {
      StuckIsCyclic(g, degree, result);
    }
  }

  method Sources(g: Graph, degree: map<NodeId, nat>) returns (queue: seq<NodeId>)
    requires degree.Keys == g.nodes.Keys
    ensures NoDup(queue) && forall v :: v in queue <==> v in g.nodes && degree[v] == 0
  {
    queue := [];
    var todo := g.nodes.Keys;
    while todo != {}
      invariant todo <= g.nodes.Keys && NoDup(queue)
      invariant forall v :: v in queue <==> v in g.nodes.Keys - todo && degree[v] == 0
    {
      var v :| v in todo;
      todo := todo - {v};
      if degree[v] == 0 {
        queue := queue + [v];
      }
    }
  }

  lemma SubsetSameSize<T>(a: set<T>, b: set<T>)
    requires a <= b && |a| == |b|
    ensures a == b
  {
    assert |b - a| == |b| - |a|;
  }

  lemma StuckIsCyclic(g: Graph, degree: map<NodeId, nat>, result: seq<NodeId>)
    requires WellFormed(g) && KahnState(g, degree, Elems(result), {}, result, [])
    requires |Elems(result)| != |g.nodes|
    ensures Cyclic(g)
  {
    hide Cyclic;
    assert result + [] == result;
    var s := g.nodes.Keys - Elems(result);
    assert Elems(result) <= g.nodes.Keys;
    assert s == {} ==> Elems(result) == g.nodes.Keys;
    forall x | x in s ensures HasPredecessorIn(g, s, x) {
      assert |Pending(g, Elems(result), {}, x)| != 0;
      var e :| e in Pending(g, Elems(result), {}, x);
    }
    var v :| v in s;
    BackwardsForever(g, s, v, {});
  }

  /** One turn of the outer loop: list the front node and count down along its edges. */
  method PopSource(g: Graph, degree: map<NodeId, nat>, result: seq<NodeId>, queue: seq<NodeId>)
    returns (degree': map<NodeId, nat>, result': seq<NodeId>, queue': seq<NodeId>)
    requires WellFormed(g) && queue != [] && KahnState(g, degree, Elems(result), {}, result, queue)
    ensures KahnState(g, degree', Elems(result'), {}, result', queue')
    ensures queue[0] in g.nodes && queue[0] !in result && result' == result + [queue[0]]
  {
    hide KahnState;
    var node := queue[0];
    result', queue', degree' := result + [node], queue[1..], degree;
    PopKeepsState(g, degree, result, queue);
    var todo := Out(g, node);
    while todo != {}
      invariant todo <= Out(g, node)
      invariant KahnState(g, degree', Elems(result'), todo, result', queue')
    {
      var e :| e in todo;
      var to := g.edges[e].to;
      EdgeCountedDown(g, degree', Elems(result'), todo, result', queue', e);
      todo := todo - {e};
      degree' := degree'[to := degree'[to] - 1];
      if degree'[to] == 0 {
        queue' := queue' + [to];
      }
    }
  }

  lemma EdgeCountedDown(g: Graph, degree: map<NodeId, nat>, removed: set<NodeId>, todo: set<EdgeId>,
                        result: seq<NodeId>, queue: seq<NodeId>, e: EdgeId)
    requires WellFormed(g) && KahnState(g, degree, removed, todo, result, queue)
    requires e in todo && todo <= g.edges.Keys && g.edges[e].from in removed
    ensures var to := g.edges[e].to;
      && to in degree && degree[to] > 0
      && KahnState(g, degree[to := degree[to] - 1], removed, todo - {e}, result,
                   if degree[to] == 1 then queue + [to] else queue)
  {
    var to := g.edges[e].to;
    assert e in Pending(g, removed, todo, to);
    CountsDown(g, degree, removed, todo, e);
    hide *;
    AppendFresh(result, queue, to);
    QueueKeepsState(g, degree, removed, todo, result, queue, e);
  }

  lemma QueueKeepsState(g: Graph, degree: map<NodeId, nat>, removed: set<NodeId>, todo: set<EdgeId>,
                        result: seq<NodeId>, queue: seq<NodeId>, e: EdgeId)
    requires WellFormed(g) && KahnState(g, degree, removed, todo, result, queue)
    requires e in g.edges && degree[g.edges[e].to] > 0
    requires Counts(g, degree[g.edges[e].to := degree[g.edges[e].to] - 1], removed, todo - {e})
    requires NoDup(result + (queue + [g.edges[e].to]))
    ensures var to := g.edges[e].to;
      KahnState(g, degree[to := degree[to] - 1], removed, todo - {e}, result,
                if degree[to] == 1 then queue + [to] else queue)
  {
    hide Counts, NoDup, ListedInOrder;
    var to := g.edges[e].to;
    assert forall v :: v in result + (queue + [to]) <==> v in result + queue || v == to;
  }

  lemma CountsDown(g: Graph, degree: map<NodeId, nat>, removed: set<NodeId>, todo: set<EdgeId>, e: EdgeId)
    requires WellFormed(g) && degree.Keys == g.nodes.Keys && Counts(g, degree, removed, todo)
    requires e in todo && todo <= g.edges.Keys && g.edges[e].from in removed
    ensures degree[g.edges[e].to] > 0
    ensures Counts(g, degree[g.edges[e].to := degree[g.edges[e].to] - 1], removed, todo - {e})
  {
    CountDown(g, removed, todo, e);
    hide Pending;
  }

  lemma AppendFresh(a: seq<NodeId>, b: seq<NodeId>, x: NodeId)
    requires NoDup(a + b)
    requires x !in a + b
    ensures NoDup(a + (b + [x]))
  {
    assert a + (b + [x]) == (a + b) + [x];
  }

  lemma PopKeepsState(g: Graph, degree: map<NodeId, nat>, result: seq<NodeId>, queue: seq<NodeId>)
    requires WellFormed(g) && queue != [] && KahnState(g, degree, Elems(result), {}, result, queue)
    ensures KahnState(g, degree, Elems(result + [queue[0]]), Out(g, queue[0]), result + [queue[0]], queue[1..])
    ensures queue[0] in g.nodes && queue[0] !in result
  {
    var node := queue[0];
    var result' := result + [node];
    assert result' + queue[1..] == result + queue;
    assert (result + queue)[|result|] == node;
    assert node in result + queue;
    assert forall i :: 0 <= i < |result| ==> (result + queue)[i] == result[i];
    PopKeepsCounts(g, degree, result, node);
    ListNext(g, result, node);
    hide Counts, ListedInOrder, Pending;
  }

  lemma PopKeepsCounts(g: Graph, degree: map<NodeId, nat>, result: seq<NodeId>, node: NodeId)
    requires degree.Keys == g.nodes.Keys && Counts(g, degree, Elems(result), {})
    requires node in g.nodes && degree[node] == 0 && node !in result
    ensures Counts(g, degree, Elems(result + [node]), Out(g, node))
    ensures Pending(g, Elems(result), {}, node) == {}
  {
    assert Elems(result + [node]) == Elems(result) + {node};
    forall v ensures Pending(g, Elems(result + [node]), Out(g, node), v) == Pending(g, Elems(result), {}, v) {
    }
    hide Pending;
  }

  lemma ListNext(g: Graph, result: seq<NodeId>, node: NodeId)
    requires ListedInOrder(g, result) && Pending(g, Elems(result), {}, node) == {}
    ensures ListedInOrder(g, result + [node])
  {
    var result' := result + [node];
    forall i, e | 0 <= i < |result'| && e in g.edges && g.edges[e].to == result'[i]
      ensures g.edges[e].from in result'[..i]
    {
      if i < |result| {
        assert result'[..i] == result[..i];
      } else {
        assert result'[..i] == result;
        assert e !in Pending(g, Elems(result), {}, node);
      }
    }
  }

  lemma CountDown(g: Graph, removed: set<NodeId>, todo: set<EdgeId>, e: EdgeId)
    requires e in todo && todo <= g.edges.Keys && g.edges[e].from in removed
    ensures forall v :: v != g.edges[e].to ==> Pending(g, removed, todo - {e}, v) == Pending(g, removed, todo, v)
    ensures |Pending(g, removed, todo - {e}, g.edges[e].to)| == |Pending(g, removed, todo, g.edges[e].to)| - 1
  {
    var v := g.edges[e].to;
    assert Pending(g, removed, todo, v) == Pending(g, removed, todo - {e}, v) + {e};
  }

  // ------------------------------------------------------------------- has_cycle

  /** Everything visited and no longer on the recursion stack is listed in a backward order. */
  ghost predicate CycleFree(g: Graph, visited: set<NodeId>, onStack: set<NodeId>, order: seq<NodeId>) {
    && BackwardOrder(g, order)
    && onStack <= visited <= g.nodes.Keys
    && Elems(order) == visited - onStack
  }

  lemma LeaveNode(g: Graph, visited: set<NodeId>, onStack: set<NodeId>, order: seq<NodeId>, node: NodeId)
    requires CycleFree(g, visited, onStack, order) && node in onStack
    requires forall e :: e in Out(g, node) ==> g.edges[e].to in visited - onStack
    ensures CycleFree(g, visited, onStack - {node}, order + [node])
  {
    var order' := order + [node];
    assert Elems(order') == Elems(order) + {node};
    assert node !in Elems(order);
    forall j, e | 0 <= j < |order'| && e in g.edges && g.edges[e].from == order'[j]
      ensures g.edges[e].to in order'[..j]
    {
      if j < |order| {
        assert order'[..j] == order[..j];
      } else {
        assert e in Out(g, node) && order'[..j] == order;
        assert g.edges[e].to in Elems(order);
      }
    }
  }

  method DfsCycle(g: Graph, node: NodeId, visited: set<NodeId>, recStack: set<NodeId>, ghost order: seq<NodeId>)
    returns (found: bool, visited': set<NodeId>, recStack': set<NodeId>, ghost order': seq<NodeId>)
    requires WellFormed(g) && CycleFree(g, visited, recStack, order)
    requires node in g.nodes && node !in visited
    requires forall y :: y in recStack ==> Reach(g, y, node)
    ensures found ==> Cyclic(g)
    ensures !found ==>
      CycleFree(g, visited', recStack', order') && recStack' == recStack && visited + {node} <= visited'
    decreases g.nodes.Keys - visited
  {
    hide BackwardOrder, Reach;
    visited', recStack', order' := visited + {node}, recStack + {node}, order;
    ReachRefl(g, node);
    assert visited' - recStack' == visited - recStack;
    var todo := Out(g, node);
    while todo != {}
      invariant todo <= Out(g, node)
      invariant CycleFree(g, visited', recStack', order')
      invariant recStack' == recStack + {node} && visited + {node} <= visited'
      invariant forall e :: e in Out(g, node) - todo ==> g.edges[e].to in visited' - recStack'
    {
      var e :| e in todo;
      todo := todo - {e};
      var to := g.edges[e].to;
      if to !in visited' {
        EdgeWalk(g, e);
        forall y | y in recStack' ensures Reach(g, y, to) {
          ReachTrans(g, y, node, to);
        }
        var f;
        f, visited', recStack', order' := DfsCycle(g, to, visited', recStack', order');
        if f {
          return true, visited', recStack', order';
        }
      } else if to in recStack' {
        ClosingEdge(g, to, e);
        return true, visited', recStack', order';
      }
    }
    LeaveNode(g, visited', recStack', order', node);
    assert recStack' - {node} == recStack;
    recStack', order' := recStack' - {node}, order' + [node];
    found := false;
  }

  method HasCycle(g: Graph) returns (r: bool)
    requires WellFormed(g)
    ensures r <==> Cyclic(g)
  {
    var visited: set<NodeId>, recStack: set<NodeId> := {}, {};
    ghost var order: seq<NodeId> := [];
    var todo := g.nodes.Keys;
    while todo != {}
      invariant todo <= g.nodes.Keys && recStack == {}
      invariant CycleFree(g, visited, recStack, order) && g.nodes.Keys - todo <= visited
    {
      var node :| node in todo;
      todo := todo - {node};
      if node !in visited {
        var f;
        f, visited, recStack, order := DfsCycle(g, node, visited, recStack, order);
        if f { return true; }
      }
    }
    assert visited - recStack == g.nodes.Keys;
    BackwardOrderAcyclic(g, order);
    return false;
  }

  // ------------------------------------------------------------------ find_cycles

  /** Consecutive nodes of p are joined by edges. */
  ghost predicate Chain(g: Graph, p: seq<NodeId>) {
    forall i :: 0 <= i < |p| - 1 ==> Step(g, p[i], p[i + 1])
  }

  ghost predicate SimpleCycle(g: Graph, c: seq<NodeId>) {
    c != [] && NoDup(c) && Chain(g, c) && Step(g, c[|c| - 1], c[0])
  }

  lemma {:induction false} ChainReach(g: Graph, p: seq<NodeId>)
    requires p != [] && Chain(g, p)
    ensures Reach(g, p[0], p[|p| - 1])
  {
    ReachRefl(g, p[0]);
    if |p| > 1 {
      var n := |p| - 1;
      ChainReach(g, p[..n]);
      assert Step(g, p[n - 1], p[n - 1 + 1]);
      var e :| e in g.edges && g.edges[e].from == p[n - 1] && g.edges[e].to == p[n];
      EdgeWalk(g, e);
      ReachTrans(g, p[0], p[n - 1], p[n]);
    }
  }

  lemma SimpleCycleIsCyclic(g: Graph, c: seq<NodeId>)
    requires SimpleCycle(g, c)
    ensures Cyclic(g)
  {
    ChainReach(g, c);
    var e :| e in g.edges && g.edges[e].from == c[|c| - 1] && g.edges[e].to == c[0];
    ClosingEdge(g, c[0], e);
  }

  /** What the listing search remembers for its proof: the edges that closed the listed cycles, the edges it
      descended along, and the order in which nodes were finished. */
  datatype Trail = Trail(back: seq<EdgeId>, tree: set<EdgeId>, order: seq<NodeId>)

  /** The graph without the edges in `cut`. */
  ghost function Cut(g: Graph, cut: set<EdgeId>): Graph {
    g.(edges := map e | e in g.edges && e !in cut :: g.edges[e])
  }

  /** Edge e leads from the last node of c to its first. */
  ghost predicate Closes(g: Graph, e: EdgeId, c: seq<NodeId>) {
    c != [] && e in g.edges && g.edges[e].from == c[|c| - 1] && g.edges[e].to == c[0]
  }

  /** Every cycle is simple, runs along tree edges and is closed by a back edge of its own. */
  ghost predicate Recorded(g: Graph, cycles: seq<seq<NodeId>>, t: Trail) {
    && NoDup(t.back) && |t.back| == |cycles|
    && forall i :: 0 <= i < |cycles| ==>
         NoDup(cycles[i]) && Along(g, t.tree, cycles[i]) && Closes(g, t.back[i], cycles[i])
  }

  /** Consecutive nodes of p are joined by edges of `tree`. */
  ghost predicate Along(g: Graph, tree: set<EdgeId>, p: seq<NodeId>) {
    forall i :: 0 <= i < |p| - 1 ==> TreeStep(g, tree, p[i], p[i + 1])
  }

  ghost predicate TreeStep(g: Graph, tree: set<EdgeId>, u: NodeId, v: NodeId) {
    exists e :: e in tree && e in g.edges && g.edges[e].from == u && g.edges[e].to == v
  }

  /** Only edges out of visited nodes were looked at, and none was both descended along and a back edge. */
  ghost predicate LookedAt(g: Graph, visited: set<NodeId>, t: Trail) {
    && t.tree !! Elems(t.back)
    && forall e :: e in t.tree || e in t.back ==> e in g.edges && g.edges[e].from in visited
  }

  /** The state of the listing search: a simple chain of tree edges on the stack, and the finished nodes in an order
      that every edge but the back edges descends. */
  ghost predicate Listing(g: Graph, visited: set<NodeId>, stack: seq<NodeId>, inStack: set<NodeId>,
                          cycles: seq<seq<NodeId>>, t: Trail) {
    && NoDup(stack) && Along(g, t.tree, stack) && inStack == Elems(stack) && inStack <= visited <= g.nodes.Keys
    && Recorded(g, cycles, t)
    && LookedAt(g, visited, t)
    && CycleFree(Cut(g, Elems(t.back)), visited, inStack, t.order)
  }

  /** Both trails agree on the edges out of nodes visited before. */
  ghost predicate Extends(g: Graph, visited: set<NodeId>, t: Trail, t': Trail) {
    && (forall e :: e in g.edges && g.edges[e].from in visited ==>
          (e in t.tree <==> e in t'.tree) && (e in t.back <==> e in t'.back))
    && forall e :: e in t.back ==> e in t'.back
  }

  method FindCyclesDfs(g: Graph, node: NodeId, visited: set<NodeId>, recStack: seq<NodeId>, inStack: set<NodeId>,
                       cycles: seq<seq<NodeId>>, ghost t: Trail)
    returns (visited': set<NodeId>, recStack': seq<NodeId>, inStack': set<NodeId>,
             cycles': seq<seq<NodeId>>, ghost t': Trail)
    requires WellFormed(g) && Listing(g, visited, recStack, inStack, cycles, t)
    requires node in g.nodes && node !in visited
    requires recStack != [] ==> TreeStep(g, t.tree, recStack[|recStack| - 1], node)
    ensures Listing(g, visited', recStack', inStack', cycles', t')
    ensures recStack' == recStack && inStack' == inStack
    ensures visited + {node} <= visited' && cycles <= cycles'
    ensures Extends(g, visited, t, t')
    decreases g.nodes.Keys - visited
  {
    hide Listing, Extends, TreeStep, LookedFresh;
    EnterListing(g, visited, recStack, inStack, cycles, t, node);
    visited', recStack', inStack' := visited + {node}, recStack + [node], inStack + {node};
    cycles', t' := cycles, t;
    ExtendsRefl(g, visited, t);
    var todo := Out(g, node);
    while todo != {}
      invariant todo <= Out(g, node)
      invariant Listing(g, visited', recStack', inStack', cycles', t')
      invariant recStack' == recStack + [node] && inStack' == inStack + {node}
      invariant visited + {node} <= visited' && cycles <= cycles'
      invariant Extends(g, visited, t, t') && LookedFresh(todo, t')
      invariant forall e :: e in Out(g, node) - todo ==> e in t'.back || g.edges[e].to in visited' - inStack'
    {
      ListingVisited(g, visited', recStack', inStack', cycles', t');
      var e :| e in todo;
      var to := g.edges[e].to;
      ghost var t0 := t';
      if to !in visited' {
        Descend(g, visited', recStack', inStack', cycles', t', todo, e);
        t' := t'.(tree := t'.tree + {e});
        DescendExtends(g, visited, t, t0, e);
        ghost var t1, v1 := t', visited';
        visited', recStack', inStack', cycles', t' :=
          FindCyclesDfs(g, to, visited', recStack', inStack', cycles', t');
        AfterDescent(g, visited, v1, t, t1, t', todo - {e}, node);
        ListingVisited(g, visited', recStack', inStack', cycles', t');
      } else if to in inStack' {
        var start := Position(recStack', to);
        FoundCycle(g, visited', recStack', inStack', cycles', t', todo, start, e);
        cycles', t' := cycles' + [recStack'[start..]], t'.(back := t'.back + [e]);
        FoundExtends(g, visited, t, t0, e);
      } else {
        FreshRest(todo, t', e);
      }
      todo := todo - {e};
    }
    LeaveListing(g, visited', recStack, inStack, cycles', t', node);
    recStack', inStack' := recStack'[..|recStack'| - 1], inStack' - {node};
    ghost var t2 := t'.(order := t'.order + [node]);
    ExtendsOrder(g, visited, t, t', t2);
    t' := t2;
  }

  /** None of the edges still to be looked at is recorded. */
  ghost predicate LookedFresh(todo: set<EdgeId>, t: Trail) {
    forall e :: e in todo ==> e !in t.tree && e !in t.back
  }

  lemma FreshRest(todo: set<EdgeId>, t: Trail, e: EdgeId)
    requires LookedFresh(todo, t)
    ensures LookedFresh(todo - {e}, t)
  {
  }

  lemma ExtendsRefl(g: Graph, visited: set<NodeId>, t: Trail)
    ensures Extends(g, visited, t, t)
  {
  }

  lemma ExtendsOrder(g: Graph, visited: set<NodeId>, t: Trail, t': Trail, u: Trail)
    requires Extends(g, visited, t, t') && u.back == t'.back && u.tree == t'.tree
    ensures Extends(g, visited, t, u)
  {
  }

  lemma DescendExtends(g: Graph, visited: set<NodeId>, t: Trail, t': Trail, e: EdgeId)
    requires Extends(g, visited, t, t') && e in g.edges && g.edges[e].from !in visited
    ensures Extends(g, visited, t, t'.(tree := t'.tree + {e}))
  {
  }

  lemma FoundExtends(g: Graph, visited: set<NodeId>, t: Trail, t': Trail, e: EdgeId)
    requires Extends(g, visited, t, t') && e in g.edges && g.edges[e].from !in visited
    ensures Extends(g, visited, t, t'.(back := t'.back + [e]))
  {
  }

  /** The search below a child leaves the edges of its ancestors as they were. */
  lemma AfterDescent(g: Graph, visited: set<NodeId>, later: set<NodeId>, t: Trail, t1: Trail, t2: Trail,
                     todo: set<EdgeId>, node: NodeId)
    requires visited <= later && node in later && todo <= Out(g, node)
    requires Extends(g, visited, t, t1) && Extends(g, later, t1, t2)
    requires LookedFresh(todo, t1)
    ensures Extends(g, visited, t, t2) && LookedFresh(todo, t2)
    ensures forall e :: e in t1.back ==> e in t2.back
  {
  }

  lemma ListingVisited(g: Graph, visited: set<NodeId>, stack: seq<NodeId>, inStack: set<NodeId>,
                       cycles: seq<seq<NodeId>>, t: Trail)
    requires Listing(g, visited, stack, inStack, cycles, t)
    ensures inStack <= visited <= g.nodes.Keys && inStack == Elems(stack)
  {
  }

  lemma EnterListing(g: Graph, visited: set<NodeId>, stack: seq<NodeId>, inStack: set<NodeId>,
                     cycles: seq<seq<NodeId>>, t: Trail, node: NodeId)
    requires Listing(g, visited, stack, inStack, cycles, t)
    requires node in g.nodes && node !in visited
    requires stack != [] ==> TreeStep(g, t.tree, stack[|stack| - 1], node)
    ensures node !in inStack
    ensures Listing(g, visited + {node}, stack + [node], inStack + {node}, cycles, t)
    ensures LookedFresh(Out(g, node), t)
  {
    hide Recorded, BackwardOrder, TreeStep;
    assert Elems(stack + [node]) == Elems(stack) + {node};
    assert (visited + {node}) - (inStack + {node}) == visited - inStack;
    assert node !in Elems(stack);
  }

  /** A step to an unvisited node is recorded as a tree edge. */
  lemma Descend(g: Graph, visited: set<NodeId>, stack: seq<NodeId>, inStack: set<NodeId>,
                cycles: seq<seq<NodeId>>, t: Trail, todo: set<EdgeId>, e: EdgeId)
    requires Listing(g, visited, stack, inStack, cycles, t) && LookedFresh(todo, t)
    requires stack != [] && e in g.edges && g.edges[e].from == stack[|stack| - 1] && e in todo
    ensures Listing(g, visited, stack, inStack, cycles, t.(tree := t.tree + {e}))
    ensures LookedFresh(todo - {e}, t.(tree := t.tree + {e}))
    ensures TreeStep(g, t.tree + {e}, stack[|stack| - 1], g.edges[e].to)
  {
    var t' := t.(tree := t.tree + {e});
    AlongGrows(g, t.tree, t'.tree);
    assert stack[|stack| - 1] in Elems(stack);
    assert TreeStep(g, t'.tree, stack[|stack| - 1], g.edges[e].to);
    hide BackwardOrder, NoDup, Along, Closes, TreeStep;
  }

  lemma AlongGrows(g: Graph, tree: set<EdgeId>, tree': set<EdgeId>)
    requires tree <= tree'
    ensures forall p :: Along(g, tree, p) ==> Along(g, tree', p)
  {
    forall p | Along(g, tree, p) ensures Along(g, tree', p) {
      forall i | 0 <= i < |p| - 1 ensures TreeStep(g, tree', p[i], p[i + 1]) {
        assert TreeStep(g, tree, p[i], p[i + 1]);
      }
    }
  }

  lemma FoundCycle(g: Graph, visited: set<NodeId>, stack: seq<NodeId>, inStack: set<NodeId>,
                   cycles: seq<seq<NodeId>>, t: Trail, todo: set<EdgeId>, start: nat, e: EdgeId)
    requires Listing(g, visited, stack, inStack, cycles, t) && LookedFresh(todo, t) && start < |stack|
    requires e in g.edges && g.edges[e].from == stack[|stack| - 1] && g.edges[e].to == stack[start] && e in todo
    ensures Listing(g, visited, stack, inStack, cycles + [stack[start..]], t.(back := t.back + [e]))
    ensures LookedFresh(todo - {e}, t.(back := t.back + [e]))
  {
    SuffixAlong(g, t.tree, stack, start);
    assert stack[|stack| - 1] in Elems(stack);
    var t' := t.(back := t.back + [e]);
    assert Elems(t'.back) == Elems(t.back) + {e};
    CutMore(g, Elems(t.back), Elems(t'.back), t.order);
    assert Recorded(g, cycles + [stack[start..]], t') by {
      hide Along, CycleFree;
    }
    hide Recorded, BackwardOrder, Along, NoDup;
  }

  lemma CutMore(g: Graph, cut: set<EdgeId>, cut': set<EdgeId>, order: seq<NodeId>)
    requires cut <= cut' && BackwardOrder(Cut(g, cut), order)
    ensures BackwardOrder(Cut(g, cut'), order)
  {
    var h := Cut(g, cut');
    forall j, e | 0 <= j < |order| && e in h.edges && h.edges[e].from == order[j]
      ensures h.edges[e].to in order[..j]
    {
      assert e in Cut(g, cut).edges;
    }
  }

  lemma LeaveListing(g: Graph, visited: set<NodeId>, stack: seq<NodeId>, inStack: set<NodeId>,
                     cycles: seq<seq<NodeId>>, t: Trail, node: NodeId)
    requires node !in inStack
    requires Listing(g, visited, stack + [node], inStack + {node}, cycles, t)
    requires forall e :: e in Out(g, node) ==> e in t.back || g.edges[e].to in visited - (inStack + {node})
    ensures (stack + [node])[..|stack + [node]| - 1] == stack && inStack + {node} - {node} == inStack
    ensures Listing(g, visited, stack, inStack, cycles, t.(order := t.order + [node]))
  {
    hide BackwardOrder, TreeStep, Closes;
    var stack' := stack + [node];
    assert forall i :: 0 <= i < |stack| ==> stack'[i] == stack[i];
    assert stack'[|stack|] == node;
    assert Elems(stack) == Elems(stack') - {node};
    LeaveNode(Cut(g, Elems(t.back)), visited, inStack + {node}, t.order, node);
  }

  method Position(s: seq<NodeId>, x: NodeId) returns (i: nat)
    requires x in s
    ensures i < |s| && s[i] == x && x !in s[..i]
  {
    i := 0;
    while s[i] != x
      invariant i < |s| && x !in s[..i]
      decreases |s| - i
    {
      i := i + 1;
    }
  }

  lemma SuffixAlong(g: Graph, tree: set<EdgeId>, stack: seq<NodeId>, start: nat)
    requires NoDup(stack) && Along(g, tree, stack) && start < |stack|
    ensures NoDup(stack[start..]) && Along(g, tree, stack[start..])
  {
    var c := stack[start..];
    forall i | 0 <= i < |c| - 1 ensures TreeStep(g, tree, c[i], c[i + 1]) {
      assert TreeStep(g, tree, stack[start + i], stack[start + i + 1]);
    }
  }

  /** A complete list: one edge closes each cycle, without these edges nothing is cyclic, and none can be spared,
      since the cycle it closes avoids all the others. */
  ghost predicate CutBy(g: Graph, cycles: seq<seq<NodeId>>, back: seq<EdgeId>) {
    && NoDup(back) && |back| == |cycles|
    && (forall i :: 0 <= i < |cycles| ==> Closes(g, back[i], cycles[i]))
    && (forall i :: 0 <= i < |cycles| ==> SimpleCycle(Cut(g, Elems(back) - {back[i]}), cycles[i]))
    && !Cyclic(Cut(g, Elems(back)))
  }

  lemma ListedIsCut(g: Graph, cycles: seq<seq<NodeId>>, t: Trail)
    requires WellFormed(g) && Listing(g, g.nodes.Keys, [], {}, cycles, t)
    ensures CutBy(g, cycles, t.back)
  {
    forall i | 0 <= i < |cycles| ensures SimpleCycle(Cut(g, Elems(t.back) - {t.back[i]}), cycles[i]) {
      ListedIsSimple(g, cycles, t, i);
    }
    assert g.nodes.Keys - {} == g.nodes.Keys;
    BackwardOrderAcyclic(Cut(g, Elems(t.back)), t.order);
  }

  lemma ListedIsSimple(g: Graph, cycles: seq<seq<NodeId>>, t: Trail, i: nat)
    requires Recorded(g, cycles, t) && t.tree !! Elems(t.back) && i < |cycles|
    ensures SimpleCycle(Cut(g, Elems(t.back) - {t.back[i]}), cycles[i])
  {
    var h := Cut(g, Elems(t.back) - {t.back[i]});
    var c := cycles[i];
    forall j | 0 <= j < |c| - 1 ensures Step(h, c[j], c[j + 1]) {
      assert TreeStep(g, t.tree, c[j], c[j + 1]);
      var e :| e in t.tree && e in g.edges && g.edges[e].from == c[j] && g.edges[e].to == c[j + 1];
      assert e in h.edges;
    }
    assert t.back[i] in h.edges;
  }

  /** Every closed walk takes the closing step of a listed cycle. */
  lemma ClosedWalkIsCut(g: Graph, cycles: seq<seq<NodeId>>, back: seq<EdgeId>, u: NodeId, es: seq<EdgeId>)
    requires CutBy(g, cycles, back) && es != [] && IsWalk(g, u, es, u)
    ensures exists i, k :: 0 <= i < |cycles| && 0 <= k < |es| && es[k] == back[i] && Closes(g, es[k], cycles[i])
  {
    if forall k :: 0 <= k < |es| ==> es[k] !in Elems(back) {
      WalkSurvives(g, Elems(back), u, es, u);
      assert false;
    }
    var k :| 0 <= k < |es| && es[k] in Elems(back);
    var i :| 0 <= i < |back| && back[i] == es[k];
    assert Closes(g, es[k], cycles[i]);
  }

  lemma {:induction false} WalkSurvives(g: Graph, cut: set<EdgeId>, u: NodeId, es: seq<EdgeId>, v: NodeId)
    requires IsWalk(g, u, es, v) && forall k :: 0 <= k < |es| ==> es[k] !in cut
    ensures IsWalk(Cut(g, cut), u, es, v)
  {
    if es != [] {
      var n := |es| - 1;
      WalkSurvives(g, cut, u, es[..n], g.edges[es[n]].from);
    }
  }

  /** The list is empty exactly when there is nothing to list. */
  lemma EmptyIffAcyclic(g: Graph, cycles: seq<seq<NodeId>>, back: seq<EdgeId>)
    requires CutBy(g, cycles, back)
    ensures cycles == [] <==> !Cyclic(g)
    ensures forall i :: 0 <= i < |cycles| ==> SimpleCycle(g, cycles[i])
  {
    forall i | 0 <= i < |cycles| ensures SimpleCycle(g, cycles[i]) {
      SimpleInWhole(g, Elems(back) - {back[i]}, cycles[i]);
    }
    if cycles == [] {
      assert Elems(back) == {};
      assert Cut(g, {}).edges == g.edges;
    } else {
      SimpleCycleIsCyclic(g, cycles[0]);
    }
  }

  lemma SimpleInWhole(g: Graph, cut: set<EdgeId>, c: seq<NodeId>)
    requires SimpleCycle(Cut(g, cut), c)
    ensures SimpleCycle(g, c)
  {
    var h := Cut(g, cut);
    forall u, v | Step(h, u, v) ensures Step(g, u, v) {
      var e :| e in h.edges && h.edges[e].from == u && h.edges[e].to == v;
      assert e in g.edges;
    }
  }

  method FindCycles(g: Graph) returns (cycles: seq<seq<NodeId>>)
    requires WellFormed(g)
    ensures cycles == [] <==> !Cyclic(g)
    ensures forall i :: 0 <= i < |cycles| ==> SimpleCycle(g, cycles[i])
    ensures exists back :: CutBy(g, cycles, back)
  {
    hide Cyclic, SimpleCycle, CutBy;
    cycles := [];
    var visited: set<NodeId>, recStack: seq<NodeId>, inStack: set<NodeId> := {}, [], {};
    ghost var t := Trail([], {}, []);
    var todo := g.nodes.Keys;
    while todo != {}
      invariant todo <= g.nodes.Keys && recStack == [] && inStack == {}
      invariant Listing(g, visited, recStack, inStack, cycles, t) && g.nodes.Keys - todo <= visited
    {
      hide Listing, Extends;
      var node :| node in todo;
      todo := todo - {node};
      if node !in visited {
        visited, recStack, inStack, cycles, t :=
          FindCyclesDfs(g, node, visited, recStack, inStack, cycles, t);
      }
    }
    assert visited == g.nodes.Keys;
    ListedIsCut(g, cycles, t);
    EmptyIffAcyclic(g, cycles, t.back);
  }
}
