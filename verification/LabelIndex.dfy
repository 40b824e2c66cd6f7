/** The index from a label to the nodes that carry it, kept beside the nodes by both stores. */
module LabelIndex {
  import opened Collections
  import opened Multigraph
  import opened GraphOps

  type Index = map<string, set<NodeId>>

  function Lookup(index: Index, l: string): set<NodeId> { if l in index then index[l] else {} }

  /** What a scan over all nodes finds. */
  function Labelled(nodes: Nodes, l: string): set<NodeId> { set v | v in nodes && l in nodes[v].labels }

  ghost predicate Indexed(index: Index, nodes: Nodes) {
    forall l :: Lookup(index, l) == Labelled(nodes, l)
  }

  /** No label keeps an empty entry. */
  ghost predicate Tidy(index: Index) {
    forall l :: l in index ==> index[l] != {}
  }

  function Filed(index: Index, id: NodeId, l: string): Index {
    index[l := Lookup(index, l) + {id}]
  }

  function Unfiled(index: Index, id: NodeId, l: string, prune: bool): Index {
    if l !in index then index
    else if prune && index[l] - {id} == {} then index - {l}
    else index[l := index[l] - {id}]
  }

  /** Exactly the listed labels gained the id. */
  ghost predicate Gained(index: Index, id: NodeId, labels: seq<string>, after: Index) {
    forall l :: Lookup(after, l) == if l in labels then Lookup(index, l) + {id} else Lookup(index, l)
  }

  ghost predicate Lost(index: Index, id: NodeId, labels: seq<string>, after: Index) {
    forall l :: Lookup(after, l) == if l in labels then Lookup(index, l) - {id} else Lookup(index, l)
  }

  method Register(index: Index, id: NodeId, labels: seq<string>) returns (after: Index)
    ensures Gained(index, id, labels, after)
    ensures Tidy(index) ==> Tidy(after)
  {
    after := index;
    for i := 0 to |labels|
      invariant Gained(index, id, labels[..i], after)
      invariant Tidy(index) ==> Tidy(after)
    {
      GainedStep(index, id, labels, i, after);
      TidyFiled(after, id, labels[i]);
      after := Filed(after, id, labels[i]);
    }
    assert labels[..|labels|] == labels;
  }

  lemma GainedStep(index: Index, id: NodeId, labels: seq<string>, i: nat, after: Index)
    requires i < |labels| && Gained(index, id, labels[..i], after)
    ensures Gained(index, id, labels[..i + 1], Filed(after, id, labels[i]))
  {
    assert labels[..i + 1] == labels[..i] + [labels[i]];
  }

  lemma TidyFiled(index: Index, id: NodeId, l: string)
    ensures Tidy(index) ==> Tidy(Filed(index, id, l))
  {
    assert id in Lookup(index, l) + {id};
  }

  method Unregister(index: Index, id: NodeId, labels: seq<string>, prune: bool) returns (after: Index)
    ensures Lost(index, id, labels, after)
    ensures prune && Tidy(index) ==> Tidy(after)
  {
    after := index;
    for i := 0 to |labels|
      invariant Lost(index, id, labels[..i], after)
      invariant prune && Tidy(index) ==> Tidy(after)
    {
      LostStep(index, id, labels, i, after, prune);
      TidyUnfiled(after, id, labels[i]);
      after := Unfiled(after, id, labels[i], prune);
    }
    assert labels[..|labels|] == labels;
  }

  lemma LostStep(index: Index, id: NodeId, labels: seq<string>, i: nat, after: Index, prune: bool)
    requires i < |labels| && Lost(index, id, labels[..i], after)
    ensures Lost(index, id, labels[..i + 1], Unfiled(after, id, labels[i], prune))
  {
    assert labels[..i + 1] == labels[..i] + [labels[i]];
    UnfiledLookup(after, id, labels[i], prune);
  }

  lemma UnfiledLookup(index: Index, id: NodeId, l: string, prune: bool)
    ensures forall k ::
      Lookup(Unfiled(index, id, l, prune), k) == if k == l then Lookup(index, k) - {id} else Lookup(index, k)
  {
  }

  lemma TidyUnfiled(index: Index, id: NodeId, l: string)
    ensures Tidy(index) ==> Tidy(Unfiled(index, id, l, true))
  {
  }

  // ------------------------------------------------------------ agreement with the scan

  /** Filing a node that is written over an old one keeps the agreement exactly when no old label is dropped. */
  lemma IndexedAfterWrite(index: Index, nodes: Nodes, id: NodeId, n: Node, after: Index)
    requires Indexed(index, nodes) && Gained(index, id, n.labels, after)
    ensures Indexed(after, nodes[id := n]) <==>
      (id in nodes ==> forall l :: l in nodes[id].labels ==> l in n.labels)
  {
    var later := nodes[id := n];
    forall l ensures Labelled(later, l) - {id} == Labelled(nodes, l) - {id} {
      assert forall v :: v != id ==> (v in Labelled(later, l) <==> v in Labelled(nodes, l));
    }
    if id in nodes && exists l :: l in nodes[id].labels && l !in n.labels {
      var l :| l in nodes[id].labels && l !in n.labels;
      assert id in Labelled(nodes, l) && id in Lookup(after, l) && id !in Labelled(later, l);
    } else {
      forall l ensures Lookup(after, l) == Labelled(later, l) {
        assert id in Labelled(later, l) <==> l in n.labels;
        assert id in Labelled(nodes, l) ==> l in n.labels;
        assert Lookup(after, l) - {id} == Labelled(later, l) - {id};
        assert id in Lookup(after, l) <==> l in n.labels;
        SameButOne(Lookup(after, l), Labelled(later, l), id);
      }
    }
  }

  lemma SameButOne(a: set<NodeId>, b: set<NodeId>, id: NodeId)
    requires a - {id} == b - {id} && (id in a <==> id in b)
    ensures a == b
  {
    forall v ensures v in a <==> v in b {
      assert v != id ==> (v in a <==> v in a - {id}) && (v in b <==> v in b - {id});
    }
  }

  lemma IndexedAfterDelete(index: Index, nodes: Nodes, id: NodeId, after: Index)
    requires Indexed(index, nodes) && id in nodes && Lost(index, id, nodes[id].labels, after)
    ensures Indexed(after, nodes - {id})
  {
    forall l ensures Lookup(after, l) == Labelled(nodes - {id}, l) {
      assert Labelled(nodes - {id}, l) == Labelled(nodes, l) - {id};
    }
  }

  /** Filing a node under one more label agrees with the nodes exactly when the label is not empty,
      because a node never takes the empty label. */
  lemma IndexedAfterAddLabel(index: Index, nodes: Nodes, id: NodeId, l: string)
    requires Indexed(index, nodes) && id in nodes && l !in nodes[id].labels
    ensures Indexed(Filed(index, id, l), nodes[id := nodes[id].(labels := WithLabel(nodes[id].labels, l))]) <==> l != ""
  {
    var n := nodes[id].(labels := WithLabel(nodes[id].labels, l));
    var after := Filed(index, id, l);
    if l == "" {
      assert id in Lookup(after, l) && id !in Labelled(nodes[id := n], l);
    } else {
      forall k ensures Lookup(after, k) == if k in n.labels then Lookup(index, k) + {id} else Lookup(index, k) {
        assert k in nodes[id].labels ==> id in Labelled(nodes, k);
        if k in nodes[id].labels {
          assert Lookup(index, k) + {id} == Lookup(index, k);
        }
      }
      IndexedAfterWrite(index, nodes, id, n, after);
    }
  }

  lemma {:induction false} WithoutElems(labels: seq<string>, l: string)
    ensures forall k :: k in Without(labels, l) <==> k in labels && k != l
    decreases |labels|
  {
    if labels != [] {
      WithoutElems(labels[1..], l);
      assert labels == [labels[0]] + labels[1..];
    }
  }

  lemma IndexedAfterRemoveLabel(index: Index, nodes: Nodes, id: NodeId, l: string, prune: bool)
    requires Indexed(index, nodes) && id in nodes
    ensures Indexed(Unfiled(index, id, l, prune), nodes[id := nodes[id].(labels := Without(nodes[id].labels, l))])
  {
    var later := nodes[id := nodes[id].(labels := Without(nodes[id].labels, l))];
    WithoutElems(nodes[id].labels, l);
    UnfiledLookup(index, id, l, prune);
    forall k ensures Labelled(later, k) == if k == l then Labelled(nodes, k) - {id} else Labelled(nodes, k) {
      assert forall v :: v in Labelled(later, k) <==> v in Labelled(nodes, k) && !(v == id && k == l);
    }
  }

  lemma IndexedSameLabels(index: Index, nodes: Nodes, id: NodeId, properties: Properties)
    requires Indexed(index, nodes) && id in nodes
    ensures Indexed(index, nodes[id := nodes[id].(properties := properties)])
  {
    forall l ensures Labelled(nodes[id := nodes[id].(properties := properties)], l) == Labelled(nodes, l) {
    }
  }
}
