/**
  What a rollback makes of a label list. Undoing the removal of a label appends it, so
  labels that were taken off come back behind the others, the one taken off first last.
 */
module RestoredLabels {
  import opened Collections
  import opened Multigraph
  import opened GraphOps
  import opened LabelIndex
  import B = Backend

  /** The labels a run takes off a node until it first deletes the node, by first removal. */
  function Removals(cs: seq<B.Command>, v: NodeId): seq<string> {
    if cs == [] then []
    else if cs[0] == B.DeleteNode(v) then []
    else if cs[0].RemoveLabel? && cs[0].v == v then [cs[0].name] + Without(Removals(cs[1..], v), cs[0].name)
    else Removals(cs[1..], v)
  }

  /** The elements of s that are not in t. */
  function Dropped(s: seq<string>, t: seq<string>): seq<string> {
    if s == [] then [] else (if s[0] in t then [] else [s[0]]) + Dropped(s[1..], t)
  }

  /** The non-empty elements of s that are in t. */
  function Picked(s: seq<string>, t: seq<string>): seq<string> {
    if s == [] then [] else (if s[0] in t && s[0] != "" then [s[0]] else []) + Picked(s[1..], t)
  }

  /** The labels never taken off, in order, and behind them the others, the one taken off first last. */
  function Restored(labels: seq<string>, cs: seq<B.Command>, v: NodeId): seq<string> {
    Dropped(labels, Removals(cs, v)) + Reversed(Picked(Removals(cs, v), labels))
  }

  /** The graph with every node's labels as a rollback leaves them. */
  function Relabel(g: Graph, cs: seq<B.Command>): Graph {
    Graph(map v | v in g.nodes :: g.nodes[v].(labels := Restored(g.nodes[v].labels, cs, v)), g.edges)
  }

  // ----------------------------------------------------------------------- elements

  lemma {:induction false} DroppedElems(s: seq<string>, t: seq<string>)
    ensures forall x :: x in Dropped(s, t) <==> x in s && x !in t
    decreases |s|
  {
    if s != [] {
      DroppedElems(s[1..], t);
      assert s == [s[0]] + s[1..];
    }
  }

  lemma {:induction false} PickedElems(s: seq<string>, t: seq<string>)
    ensures forall x :: x in Picked(s, t) <==> x in s && x in t && x != ""
    decreases |s|
  {
    if s != [] {
      PickedElems(s[1..], t);
      assert s == [s[0]] + s[1..];
    }
  }

  lemma {:induction false} ReversedElems(s: seq<string>)
    ensures forall x :: x in Reversed(s) <==> x in s
    decreases |s|
  {
    if s != [] {
      var n := |s| - 1;
      ReversedElems(s[..n]);
      assert s == s[..n] + [s[n]];
    }
  }

  lemma RestoredElems(labels: seq<string>, cs: seq<B.Command>, v: NodeId)
    ensures forall x :: x in Restored(labels, cs, v) <==> x in labels && (x == "" ==> x !in Removals(cs, v))
  {
    hide Dropped, Picked, Reversed, Removals;
    DroppedElems(labels, Removals(cs, v));
    PickedElems(Removals(cs, v), labels);
    ReversedElems(Picked(Removals(cs, v), labels));
  }

  // ----------------------------------------------------- taking out one more label

  lemma {:induction false} WithoutConcat(s: seq<string>, t: seq<string>, x: string)
    ensures Without(s + t, x) == Without(s, x) + Without(t, x)
    decreases |s|
  {
    if s == [] {
      assert s + t == t;
    } else {
      WithoutConcat(s[1..], t, x);
      assert (s + t)[1..] == s[1..] + t;
    }
  }

  lemma {:induction false} WithoutReversed(s: seq<string>, x: string)
    ensures Without(Reversed(s), x) == Reversed(Without(s, x))
    decreases |s|
  {
    if s != [] {
      var n := |s| - 1;
      WithoutReversed(s[..n], x);
      assert s == s[..n] + [s[n]];
      WithoutConcat(s[..n], [s[n]], x);
      WithoutConcat([s[n]], Reversed(s[..n]), x);
      if s[n] != x {
        assert Without([s[n]], x) == [s[n]];
        ReversedSnoc(Without(s[..n], x), s[n]);
      } else {
        WithoutOne(x);
        assert Without(s[..n], x) + [] == Without(s[..n], x);
      }
    }
  }

  lemma {:induction false} DroppedConcat(s: seq<string>, x: string, t: seq<string>)
    ensures Dropped(s + [x], t) == Dropped(s, t) + (if x in t then [] else [x])
    decreases |s|
  {
    if s == [] {
      assert s + [x] == [x];
    } else {
      DroppedConcat(s[1..], x, t);
      assert (s + [x])[1..] == s[1..] + [x];
    }
  }

  /** A label outside the list does not matter for what is picked, except that it is not picked. */
  lemma {:induction false} PickedMore(s: seq<string>, t: seq<string>, x: string)
    requires x !in t
    ensures Without(Picked(s, t + [x]), x) == Picked(s, t)
    decreases |s|
  {
    if s != [] {
      PickedMore(s[1..], t, x);
      var first := if s[0] in t + [x] && s[0] != "" then [s[0]] else [];
      WithoutConcat(first, Picked(s[1..], t + [x]), x);
      assert Without(first, x) == if s[0] in t && s[0] != "" then [s[0]] else [];
    }
  }

  lemma {:induction false} PickedWithout(s: seq<string>, t: seq<string>, x: string)
    ensures Picked(Without(s, x), t) == Picked(s, Without(t, x))
    decreases |s|
  {
    WithoutElems(t, x);
    if s != [] {
      PickedWithout(s[1..], t, x);
      if s[0] != x {
        assert ([s[0]] + Without(s[1..], x))[1..] == Without(s[1..], x);
      }
    }
  }

  lemma {:induction false} DroppedFirst(s: seq<string>, t: seq<string>, x: string)
    ensures Dropped(s, [x] + Without(t, x)) == Dropped(Without(s, x), t)
    decreases |s|
  {
    WithoutElems(t, x);
    if s != [] {
      DroppedFirst(s[1..], t, x);
      if s[0] != x {
        assert ([s[0]] + Without(s[1..], x))[1..] == Without(s[1..], x);
      }
    }
  }

  // ------------------------------------------------------------ one command in front

  /** Commands that neither delete the node nor take a label off it do not matter. */
  lemma OtherCommand(c: B.Command, cs: seq<B.Command>, v: NodeId, labels: seq<string>)
    requires c != B.DeleteNode(v) && !(c.RemoveLabel? && c.v == v)
    ensures Restored(labels, [c] + cs, v) == Restored(labels, cs, v)
  {
    assert ([c] + cs)[1..] == cs;
  }

  /** What happens after a deletion does not matter: the deletion's record holds the labels. */
  lemma DeletedFirst(cs: seq<B.Command>, v: NodeId, labels: seq<string>)
    ensures Restored(labels, [B.DeleteNode(v)] + cs, v) == labels
  {
    DroppedNothing(labels);
  }

  lemma {:induction false} DroppedNothing(s: seq<string>)
    ensures Dropped(s, []) == s
    decreases |s|
  {
    if s != [] {
      DroppedNothing(s[1..]);
    }
  }

  /** Taking off again a label that was added leaves what would have been left without it. */
  lemma AddedFirst(labels: seq<string>, cs: seq<B.Command>, v: NodeId, name: string)
    requires name !in labels
    ensures Without(Restored(WithLabel(labels, name), cs, v), name) == Restored(labels, cs, v)
  {
    var removed := Removals(cs, v);
    hide Removals, Picked, Dropped, Without, Reversed;
    RestoredElems(labels, cs, v);
    if name == "" {
      WithoutAbsent(Restored(labels, cs, v), name);
    } else {
      var more := labels + [name];
      DroppedConcat(labels, name, removed);
      WithoutConcat(Dropped(more, removed), Reversed(Picked(removed, more)), name);
      WithoutReversed(Picked(removed, more), name);
      PickedMore(removed, labels, name);
      DroppedElems(labels, removed);
      WithoutConcat(Dropped(labels, removed), if name in removed then [] else [name], name);
      WithoutAbsent(Dropped(labels, removed), name);
      WithoutOne(name);
    }
  }

  lemma WithoutOne(name: string)
    ensures Without([name], name) == [] && Without([], name) == []
  {
  }

  /** A label taken off first comes back last. */
  lemma RemovedFirst(labels: seq<string>, cs: seq<B.Command>, v: NodeId, name: string)
    requires name in labels
    ensures Restored(labels, [B.RemoveLabel(v, name)] + cs, v) ==
      WithLabel(Restored(Without(labels, name), cs, v), name)
  {
    var all := [B.RemoveLabel(v, name)] + cs;
    var removed := Removals(cs, v);
    assert all[1..] == cs;
    assert Removals(all, v) == [name] + Without(removed, name);
    hide Removals;
    var rest := Without(removed, name);
    DroppedFirst(labels, removed, name);
    PickedWithout(removed, labels, name);
    assert ([name] + rest)[1..] == rest;
    var picked := Picked(rest, labels);
    assert Picked([name] + rest, labels) == (if name != "" then [name] else []) + picked;
    hide Picked, Dropped;
    if name != "" {
      ReversedCons(name, picked);
    } else {
      assert [] + picked == picked;
    }
    hide Reversed;
    RestoredElems(Without(labels, name), cs, v);
    WithoutElems(labels, name);
  }

  lemma {:induction false} ReversedCons(x: string, s: seq<string>)
    ensures Reversed([x] + s) == Reversed(s) + [x]
    decreases |s|
  {
    if s == [] {
      assert [x] + s == [x] && [x][..0] == [];
    } else {
      var n := |s| - 1;
      ReversedCons(x, s[..n]);
      assert ([x] + s)[..n + 1] == [x] + s[..n];
    }
  }

  /** A removal that finds no label does not matter. */
  lemma RemovedNothing(labels: seq<string>, cs: seq<B.Command>, v: NodeId, name: string)
    requires name !in labels
    ensures Restored(labels, [B.RemoveLabel(v, name)] + cs, v) == Restored(labels, cs, v)
  {
    var all := [B.RemoveLabel(v, name)] + cs;
    var removed := Removals(cs, v);
    assert all[1..] == cs;
    assert Removals(all, v) == [name] + Without(removed, name);
    hide Removals;
    DroppedFirst(labels, removed, name);
    WithoutAbsent(labels, name);
    PickedWithout(removed, labels, name);
    var rest := Without(removed, name);
    assert ([name] + rest)[1..] == rest;
    assert Picked([name] + rest, labels) == [] + Picked(rest, labels);
    assert [] + Picked(rest, labels) == Picked(rest, labels);
  }
}
