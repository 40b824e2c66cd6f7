/** Schema constraints: what they demand of a whole graph, and the checks made before each change. */
module Constraints {
  import opened Collections
  import opened Multigraph
  import opened GraphOps

  datatype PropertyType = BoolType | IntType | FloatType | StringType

  datatype Kind =
    | Unique
    | NotNull
    | TypeCheck(expected: PropertyType)
    | RequiredLabel(required: string)
    | EndpointLabel(source: string, target: string)

  /** `on` is the label, for endpoint constraints the edge type, the constraint speaks about. */
  datatype Constraint = Constraint(name: string, on: string, properties: seq<string>, kind: Kind)

  datatype Violation =
    | AlreadyExists(name: string)
    | NotFound(name: string)
    | UniqueViolation(name: string, on: string, property: string, value: PropertyValue)
    | CompositeUniqueViolation(name: string, on: string, properties: seq<string>)
    | NotNullViolation(name: string, on: string, property: string)
    | TypeViolation(name: string, on: string, property: string, expected: PropertyType, actual: PropertyValue)
    | RequiredLabelViolation(name: string, on: string, required: string)
    | EndpointLabelViolation(name: string, edgeType: string, source: string, target: string)

  // ------------------------------------------------------- what a constraint means

  /** Both nodes carry all the properties, with equal values. */
  ghost predicate SameValues(ps: seq<string>, a: Properties, b: Properties) {
    forall p :: p in ps ==> p in a && p in b && a[p] == b[p]
  }

  predicate HasType(v: PropertyValue, t: PropertyType) {
    || v.Null?
    || (t.BoolType? && v.Bool?) || (t.IntType? && v.Int?) || (t.FloatType? && v.Float?) || (t.StringType? && v.String?)
  }

  /** The values a type accepts: its own and Null, never a value of another type or a temporal one. */
  lemma AcceptedValues(v: PropertyValue)
    ensures HasType(v, BoolType) <==> v == Null || exists b :: v == Bool(b)
    ensures HasType(v, IntType) <==> v == Null || exists n :: v == Int(n)
    ensures HasType(v, FloatType) <==> v == Null || exists x :: v == Float(x)
    ensures HasType(v, StringType) <==> v == Null || exists s :: v == String(s)
  {
    match v
    case Bool(b) => assert v == Bool(b);
    case Int(n) => assert v == Int(n);
    case Float(x) => assert v == Float(x);
    case String(s) => assert v == String(s);
    case _ =>
  }

  /** What the constraint demands of one node by itself. */
  ghost predicate NodeMeets(c: Constraint, n: Node) {
    match c.kind
    case NotNull => forall p :: p in c.properties ==> p in n.properties && n.properties[p] != Null
    case TypeCheck(t) => forall p :: p in c.properties && p in n.properties ==> HasType(n.properties[p], t)
    case RequiredLabel(r) => r in n.labels
    case _ => true
  }

  ghost predicate EdgeMeets(c: Constraint, g: Graph, e: Edge) {
    c.kind.EndpointLabel? ==>
      && e.from in g.nodes && c.kind.source in g.nodes[e.from].labels
      && e.to in g.nodes && c.kind.target in g.nodes[e.to].labels
  }

  /** The constraint is true of the whole graph. */
  ghost predicate Holds(c: Constraint, g: Graph) {
    && (forall v :: v in g.nodes && c.on in g.nodes[v].labels ==> NodeMeets(c, g.nodes[v]))
    && (c.kind.Unique? ==> forall u, v ::
          u in g.nodes && v in g.nodes && u != v && c.on in g.nodes[u].labels && c.on in g.nodes[v].labels ==>
          !SameValues(c.properties, g.nodes[u].properties, g.nodes[v].properties))
    && (forall e :: e in g.edges && g.edges[e].edgeType == c.on ==> EdgeMeets(c, g, g.edges[e]))
  }

  type Schema = map<string, Constraint>

  ghost predicate AllHold(cs: Schema, g: Graph) { forall k :: k in cs ==> Holds(cs[k], g) }

  // ---------------------------------------------------------- what the checks look at

  /** Some other node with the constraint's label has the same values. */
  ghost predicate Clashes(c: Constraint, g: Graph, p: Properties, exclude: Option<NodeId>) {
    exists v :: v in g.nodes && ClashesAt(c, g.nodes[v], v, p, exclude)
  }

  ghost predicate ClashesAt(c: Constraint, n: Node, v: NodeId, p: Properties, exclude: Option<NodeId>) {
    c.on in n.labels && exclude != Some(v) && SameValues(c.properties, n.properties, p)
  }

  ghost predicate FitsCreate(c: Constraint, g: Graph, primary: string, p: Properties, exclude: Option<NodeId>) {
    match c.kind
    case Unique => !Clashes(c, g, p, exclude)
    case NotNull => forall k :: k in c.properties ==> k in p && p[k] != Null
    case TypeCheck(t) => forall k :: k in c.properties && k in p ==> HasType(p[k], t)
    case RequiredLabel(r) => primary == r
    case EndpointLabel(_, _) => true
  }

  ghost predicate FitsSet(c: Constraint, g: Graph, n: Node, key: string, value: PropertyValue) {
    match c.kind
    case Unique => !Clashes(c, g, n.properties[key := value], Some(n.id))
    case NotNull => value != Null
    case TypeCheck(t) => HasType(value, t)
    case _ => true
  }

  /** The violation is of the constraint's kind and shows a property that really fails, with the value it has. */
  ghost predicate Reports(x: Violation, c: Constraint, p: Properties) {
    match c.kind
    case Unique =>
      if |c.properties| == 1 then
        c.properties[0] in p && x == UniqueViolation(c.name, c.on, c.properties[0], p[c.properties[0]])
      else
        x == CompositeUniqueViolation(c.name, c.on, c.properties) && forall k :: k in c.properties ==> k in p
    case NotNull =>
      && x.NotNullViolation? && x == NotNullViolation(c.name, c.on, x.property)
      && x.property in c.properties && (x.property !in p || p[x.property] == Null)
    case TypeCheck(t) =>
      && x.TypeViolation? && x == TypeViolation(c.name, c.on, x.property, t, x.actual)
      && x.property in c.properties && x.property in p && p[x.property] == x.actual
      && x.actual != Null && (t.BoolType? ==> !x.actual.Bool?) && (t.IntType? ==> !x.actual.Int?)
      && (t.FloatType? ==> !x.actual.Float?) && (t.StringType? ==> !x.actual.String?)
    case RequiredLabel(required) => x == RequiredLabelViolation(c.name, c.on, required)
    case EndpointLabel(source, target) => x == EndpointLabelViolation(c.name, c.on, source, target)
  }

  ghost predicate AcceptsCreate(cs: Schema, g: Graph, primary: string, p: Properties, exclude: Option<NodeId>) {
    forall k :: k in cs && cs[k].on == primary ==> FitsCreate(cs[k], g, primary, p, exclude)
  }

  ghost predicate AcceptsSet(cs: Schema, g: Graph, n: Node, key: string, value: PropertyValue) {
    forall k :: k in cs && cs[k].on in n.labels && key in cs[k].properties ==> FitsSet(cs[k], g, n, key, value)
  }

  ghost predicate AcceptsRemove(cs: Schema, n: Node, key: string) {
    forall k :: k in cs && cs[k].on in n.labels && key in cs[k].properties ==> !cs[k].kind.NotNull?
  }

  ghost predicate AcceptsEdge(cs: Schema, g: Graph, edgeType: string, from: NodeId, to: NodeId) {
    forall k :: k in cs && cs[k].on == edgeType ==> FitsEdge(cs[k], g, from, to)
  }

  ghost predicate FitsEdge(c: Constraint, g: Graph, from: NodeId, to: NodeId) {
    c.kind.EndpointLabel? ==> c.kind.source in Labels(g, from) && c.kind.target in Labels(g, to)
  }

  // ------------------------------------------------------------------ the manager

  class ConstraintManager {
    var constraints: Schema
    var enabled: bool

    ghost predicate Valid()
      reads this
    {
      forall k :: k in constraints ==> constraints[k].name == k
    }

    constructor ()
      ensures Valid() && constraints == map[] && enabled
    {
      constraints, enabled := map[], true;
    }

    method CreateConstraint(c: Constraint) returns (r: Option<Violation>)
      requires Valid()
      modifies this
      ensures Valid() && enabled == old(enabled)
      ensures c.name in old(constraints) ==> r == Some(AlreadyExists(c.name)) && constraints == old(constraints)
      ensures c.name !in old(constraints) ==> r == None && constraints == old(constraints)[c.name := c]
    {
      if c.name in constraints {
        return Some(AlreadyExists(c.name));
      }
      constraints := constraints[c.name := c];
      r := None;
    }

    method DropConstraint(name: string) returns (r: Option<Violation>)
      requires Valid()
      modifies this
      ensures Valid() && enabled == old(enabled) && constraints == old(constraints) - {name}
      ensures r == if name in old(constraints) then None else Some(NotFound(name))
    {
      r := if name in constraints then None else Some(NotFound(name));
      constraints := constraints - {name};
    }

    method SetEnabled(on: bool)
      requires Valid()
      modifies this`enabled
      ensures Valid() && enabled == on
    {
      enabled := on;
    }

    /** Accepted exactly when every constraint on the primary label fits; an error names one that does not. */
    method ValidateNodeCreate(g: Graph, primary: string, p: Properties,
                              exclude: Option<NodeId>) returns (r: Option<Violation>)
      requires Valid() && WellFormed(g)
      ensures r.None? <==> !enabled || AcceptsCreate(constraints, g, primary, p, exclude)
      ensures r.Some? ==> r.value.name in constraints && constraints[r.value.name].on == primary
      ensures r.Some? ==> !FitsCreate(constraints[r.value.name], g, primary, p, exclude)
      ensures r.Some? ==> Reports(r.value, constraints[r.value.name], p)
    {
      hide FitsCreate, WellFormed, Reports;
      if !enabled {
        return None;
      }
      var todo := constraints.Keys;
      while todo != {}
        invariant todo <= constraints.Keys
        invariant forall k :: k in constraints && k !in todo && constraints[k].on == primary ==>
          FitsCreate(constraints[k], g, primary, p, exclude)
      {
        var k :| k in todo;
        todo := todo - {k};
        if constraints[k].on == primary {
          r := CheckCreate(constraints[k], g, primary, p, exclude);
          if r.Some? {
            return;
          }
        }
      }
      r := None;
    }

    /** Accepted exactly when every constraint on the property and a label of the node fits. */
    method ValidatePropertySet(g: Graph, n: Node, key: string, value: PropertyValue) returns (r: Option<Violation>)
      requires Valid() && WellFormed(g)
      ensures r.None? <==> !enabled || AcceptsSet(constraints, g, n, key, value)
      ensures r.Some? ==> r.value.name in constraints && constraints[r.value.name].on in n.labels
      ensures r.Some? ==> !FitsSet(constraints[r.value.name], g, n, key, value)
      ensures r.Some? ==> Reports(r.value, constraints[r.value.name], n.properties[key := value])
    {
      hide FitsSet, WellFormed, Reports;
      if !enabled {
        return None;
      }
      var todo := constraints.Keys;
      while todo != {}
        invariant todo <= constraints.Keys
        invariant forall k ::
          k in constraints && k !in todo && constraints[k].on in n.labels && key in constraints[k].properties ==>
          FitsSet(constraints[k], g, n, key, value)
      {
        var k :| k in todo;
        todo := todo - {k};
        if constraints[k].on in n.labels && key in constraints[k].properties {
          r := CheckSet(constraints[k], g, n, key, value);
          if r.Some? {
            return;
          }
        }
      }
      r := None;
    }

    method ValidatePropertyRemove(n: Node, key: string) returns (r: Option<Violation>)
      requires Valid()
      ensures r.None? <==> !enabled || AcceptsRemove(constraints, n, key)
      ensures r.Some? ==>
        r.value.name in constraints && r.value == NotNullViolation(r.value.name, constraints[r.value.name].on, key)
    {
      if !enabled {
        return None;
      }
      var todo := constraints.Keys;
      while todo != {}
        invariant todo <= constraints.Keys
        invariant forall k ::
          k in constraints && k !in todo && constraints[k].on in n.labels && key in constraints[k].properties ==>
          !constraints[k].kind.NotNull?
      {
        var k :| k in todo;
        todo := todo - {k};
        if constraints[k].on in n.labels && key in constraints[k].properties && constraints[k].kind.NotNull? {
          return Some(NotNullViolation(constraints[k].name, constraints[k].on, key));
        }
      }
      r := None;
    }

    method ValidateEdgeCreate(g: Graph, edgeType: string, from: NodeId, to: NodeId) returns (r: Option<Violation>)
      requires Valid()
      ensures r.None? <==> !enabled || AcceptsEdge(constraints, g, edgeType, from, to)
      ensures r.Some? ==> r.value.name in constraints && !FitsEdge(constraints[r.value.name], g, from, to)
      ensures r.Some? ==> Reports(r.value, constraints[r.value.name], map[])
    {
      if !enabled {
        return None;
      }
      var todo := constraints.Keys;
      while todo != {}
        invariant todo <= constraints.Keys
        invariant forall k :: k in constraints && k !in todo && constraints[k].on == edgeType ==>
          FitsEdge(constraints[k], g, from, to)
      {
        var k :| k in todo;
        var c := constraints[k];
        todo := todo - {k};
        if c.on == edgeType && c.kind.EndpointLabel? {
          var fromHas := from in g.nodes && c.kind.source in g.nodes[from].labels;
          var toHas := to in g.nodes && c.kind.target in g.nodes[to].labels;
          if !fromHas || !toHas {
            return Some(EndpointLabelViolation(c.name, edgeType, c.kind.source, c.kind.target));
          }
        }
      }
      r := None;
    }
  }

  method CheckCreate(c: Constraint, g: Graph, primary: string, p: Properties,
                     exclude: Option<NodeId>) returns (r: Option<Violation>)
    requires WellFormed(g)
    ensures r.None? <==> FitsCreate(c, g, primary, p, exclude)
    ensures r.Some? ==> r.value.name == c.name && Reports(r.value, c, p)
  {
    r := None;
    match c.kind
    case Unique =>
      if |c.properties| == 1 {
        if c.properties[0] in p {
          r := CheckUniqueSingle(g, c, p[c.properties[0]], exclude);
          OneProperty(c, g, p, exclude);
        } else {
          assert !Clashes(c, g, p, exclude);
        }
      } else {
        r := CheckUniqueComposite(g, c, p, exclude);
      }
    case NotNull =>
      for i := 0 to |c.properties|
        invariant r == None && forall j :: 0 <= j < i ==> c.properties[j] in p && p[c.properties[j]] != Null
      {
        if c.properties[i] !in p || p[c.properties[i]] == Null {
          return Some(NotNullViolation(c.name, c.on, c.properties[i]));
        }
      }
    case TypeCheck(t) =>
      for i := 0 to |c.properties|
        invariant r == None && forall j :: 0 <= j < i && c.properties[j] in p ==> HasType(p[c.properties[j]], t)
      {
        if c.properties[i] in p && !HasType(p[c.properties[i]], t) {
          return Some(TypeViolation(c.name, c.on, c.properties[i], t, p[c.properties[i]]));
        }
      }
    case RequiredLabel(required) =>
      if primary != required {
        r := Some(RequiredLabelViolation(c.name, c.on, required));
      }
    case EndpointLabel(_, _) =>
  }

  method CheckSet(c: Constraint, g: Graph, n: Node, key: string, value: PropertyValue) returns (r: Option<Violation>)
    requires WellFormed(g) && key in c.properties
    ensures r.None? <==> FitsSet(c, g, n, key, value)
    ensures r.Some? ==> r.value.name == c.name && Reports(r.value, c, n.properties[key := value])
  {
    r := None;
    match c.kind
    case Unique =>
      if |c.properties| == 1 {
        r := CheckUniqueSingle(g, c, value, Some(n.id));
        OneProperty(c, g, n.properties[key := value], Some(n.id));
      } else {
        var updated := map k | k in c.properties &&
          (k == key || k in n.properties) :: if k == key then value else n.properties[k];
        r := CheckUniqueComposite(g, c, updated, Some(n.id));
        OnlyListed(c, g, updated, n.properties[key := value], Some(n.id));
      }
    case NotNull =>
      if value == Null {
        r := Some(NotNullViolation(c.name, c.on, key));
      }
    case TypeCheck(t) =>
      if !HasType(value, t) {
        r := Some(TypeViolation(c.name, c.on, key, t, value));
      }
    case _ =>
  }

  /** A clash is about the listed properties only. */
  lemma OnlyListed(c: Constraint, g: Graph, p: Properties, q: Properties, exclude: Option<NodeId>)
    requires forall k :: k in c.properties ==> (k in p <==> k in q) && (k in p ==> p[k] == q[k])
    ensures Clashes(c, g, p, exclude) <==> Clashes(c, g, q, exclude)
  {
    forall n: Node, v ensures ClashesAt(c, n, v, p, exclude) <==> ClashesAt(c, n, v, q, exclude) {
      assert forall k :: k in c.properties ==> (k in p <==> k in q) && (k in p ==> p[k] == q[k]);
    }
  }

  ghost predicate ClashesOne(c: Constraint, g: Graph, value: PropertyValue, exclude: Option<NodeId>)
    requires |c.properties| == 1
  {
    exists v :: v in g.nodes && c.on in g.nodes[v].labels && exclude != Some(v)
      && c.properties[0] in g.nodes[v].properties && g.nodes[v].properties[c.properties[0]] == value
  }

  lemma OneProperty(c: Constraint, g: Graph, p: Properties, exclude: Option<NodeId>)
    requires |c.properties| == 1 && c.properties[0] in p
    ensures Clashes(c, g, p, exclude) <==> ClashesOne(c, g, p[c.properties[0]], exclude)
  {
    var k := c.properties[0];
    forall n: Node ensures SameValues(c.properties, n.properties, p) <==> k in n.properties && n.properties[k] == p[k] {
    }
    if ClashesOne(c, g, p[k], exclude) {
      var v :| v in g.nodes && c.on in g.nodes[v].labels && exclude != Some(v) && k in g.nodes[v].properties &&
        g.nodes[v].properties[k] == p[k];
      assert ClashesAt(c, g.nodes[v], v, p, exclude);
    }
  }

  method CheckUniqueSingle(g: Graph, c: Constraint, value: PropertyValue,
                           exclude: Option<NodeId>) returns (r: Option<Violation>)
    requires WellFormed(g) && |c.properties| == 1
    ensures r.None? <==> !ClashesOne(c, g, value, exclude)
    ensures r.Some? ==> r.value == UniqueViolation(c.name, c.on, c.properties[0], value)
  {
    var property := c.properties[0];
    var todo := g.nodes.Keys;
    while todo != {}
      invariant todo <= g.nodes.Keys
      invariant forall v :: v in g.nodes && v !in todo ==>
        !(c.on in g.nodes[v].labels && exclude != Some(v)
          && property in g.nodes[v].properties && g.nodes[v].properties[property] == value)
    {
      var v :| v in todo;
      var n := g.nodes[v];
      todo := todo - {v};
      if c.on in n.labels && exclude != Some(n.id) && property in n.properties && n.properties[property] == value {
        return Some(UniqueViolation(c.name, c.on, property, value));
      }
    }
    r := None;
  }

  method CheckUniqueComposite(g: Graph, c: Constraint, p: Properties,
                              exclude: Option<NodeId>) returns (r: Option<Violation>)
    requires WellFormed(g)
    ensures r.None? <==> !Clashes(c, g, p, exclude)
    ensures r.Some? ==> r.value == CompositeUniqueViolation(c.name, c.on, c.properties)
    ensures r.Some? ==> forall k :: k in c.properties ==> k in p
  {
    var values: seq<PropertyValue> := [];
    for i := 0 to |c.properties|
      invariant |values| == i && forall j :: 0 <= j < i ==> c.properties[j] in p && values[j] == p[c.properties[j]]
    {
      if c.properties[i] !in p {
        assert forall n: Node :: !SameValues(c.properties, n.properties, p);
        return None;
      }
      values := values + [p[c.properties[i]]];
    }
    hide SameValues;
    var todo := g.nodes.Keys;
    while todo != {}
      invariant todo <= g.nodes.Keys
      invariant forall v :: v in g.nodes && v !in todo ==> !ClashesAt(c, g.nodes[v], v, p, exclude)
    {
      var v :| v in todo;
      var n := g.nodes[v];
      todo := todo - {v};
      if c.on in n.labels && exclude != Some(n.id) {
        var all := AllMatch(c.properties, n.properties, values, p);
        if all {
          assert ClashesAt(c, g.nodes[v], v, p, exclude);
          return Some(CompositeUniqueViolation(c.name, c.on, c.properties));
        }
      }
    }
    r := None;
  }

  method AllMatch(ps: seq<string>, existing: Properties, values: seq<PropertyValue>,
                  ghost p: Properties) returns (all: bool)
    requires |values| == |ps| && forall j :: 0 <= j < |ps| ==> ps[j] in p && values[j] == p[ps[j]]
    ensures all <==> SameValues(ps, existing, p)
  {
    for i := 0 to |ps|
      invariant forall j :: 0 <= j < i ==> ps[j] in existing && existing[ps[j]] == p[ps[j]]
    {
      if ps[i] !in existing || existing[ps[i]] != values[i] {
        return false;
      }
    }
    all := true;
  }

  // ------------------------------------------------- a checked change keeps a constraint

  function Primary(labels: seq<string>): string { if labels == [] then "" else labels[0] }

  /** A created node with its properties. */
  function Created(g: Graph, id: NodeId, labels: seq<string>, p: Properties): Graph {
    PutNodeProperties(AddNode(g, id, labels), id, p)
  }

  /** What the constraint really demands of a new node: of its labels all, not only of the primary one. */
  ghost predicate Admissible(c: Constraint, g: Graph, labels: seq<string>, p: Properties) {
    c.on in labels ==>
      && NodeMeets(c, Node(0, labels, p))
      && (c.kind.Unique? ==> !Clashes(c, g, p, None))
  }

  /** Adding a node keeps a constraint exactly when the node is admissible. */
  lemma CreateKeepsIff(c: Constraint, g: Graph, id: NodeId, labels: seq<string>, p: Properties)
    requires WellFormed(g) && Holds(c, g) && id !in g.nodes
    ensures Holds(c, Created(g, id, labels, p)) <==> Admissible(c, g, labels, p)
  {
    var h := Created(g, id, labels, p);
    var n := Node(id, labels, p);
    assert h.nodes == g.nodes[id := n] && h.edges == g.edges;
    if Admissible(c, g, labels, p) {
      CreateKeepsEdges(c, g, id, n);
      forall u, v | u in h.nodes && v in h.nodes && u != v && c.kind.Unique? && c.on in h.nodes[u].labels &&
        c.on in h.nodes[v].labels
        ensures !SameValues(c.properties, h.nodes[u].properties, h.nodes[v].properties)
      {
        if u == id {
          assert !ClashesAt(c, g.nodes[v], v, p, None);
        } else if v == id {
          assert !ClashesAt(c, g.nodes[u], u, p, None);
        }
      }
    } else if c.kind.Unique? {
      var v :| v in g.nodes && ClashesAt(c, g.nodes[v], v, p, None);
      assert v != id && h.nodes[v] == g.nodes[v] && h.nodes[id] == n;
      assert SameValues(c.properties, h.nodes[v].properties, h.nodes[id].properties);
    } else {
      assert h.nodes[id] == n && !NodeMeets(c, n);
    }
  }

  lemma CreateKeepsEdges(c: Constraint, g: Graph, id: NodeId, n: Node)
    requires WellFormed(g) && Holds(c, g) && id !in g.nodes
    ensures forall e :: e in g.edges && g.edges[e].edgeType == c.on ==>
      EdgeMeets(c, Graph(g.nodes[id := n], g.edges), g.edges[e])
  {
  }

  /** The check made on the primary label covers a node whose other labels carry no constraint. */
  lemma CheckedCreateKeeps(c: Constraint, g: Graph, id: NodeId, labels: seq<string>, p: Properties)
    requires WellFormed(g) && Holds(c, g) && id !in g.nodes
    requires c.on in labels ==> c.on == Primary(labels) && FitsCreate(c, g, c.on, p, None)
    ensures Holds(c, Created(g, id, labels, p))
  {
    CreateKeepsIff(c, g, id, labels, p);
  }

  /** A node accepted on its primary label keeps the whole schema exactly when it is admissible for the
      constraints on its other labels. */
  lemma CheckedCreateKeepsIff(cs: Schema, g: Graph, id: NodeId, labels: seq<string>, p: Properties)
    requires WellFormed(g) && AllHold(cs, g) && id !in g.nodes && AcceptsCreate(cs, g, Primary(labels), p, None)
    ensures AllHold(cs, Created(g, id, labels, p)) <==>
      forall k :: k in cs && cs[k].on != Primary(labels) ==> Admissible(cs[k], g, labels, p)
  {
    hide Holds, Created, Admissible, FitsCreate, WellFormed;
    forall k | k in cs
      ensures Holds(cs[k], Created(g, id, labels, p)) <==> Admissible(cs[k], g, labels, p)
      ensures cs[k].on == Primary(labels) ==> Admissible(cs[k], g, labels, p)
    {
      assert Holds(cs[k], g);
      CreateKeepsIff(cs[k], g, id, labels, p);
      if cs[k].on == Primary(labels) {
        FitsMeansAdmissible(cs[k], g, labels, p);
      }
    }
  }

  lemma FitsMeansAdmissible(c: Constraint, g: Graph, labels: seq<string>, p: Properties)
    requires c.on == Primary(labels) && FitsCreate(c, g, c.on, p, None)
    ensures Admissible(c, g, labels, p)
  {
    hide Clashes;
  }

  lemma CheckedSetKeeps(c: Constraint, g: Graph, v: NodeId, key: string, value: PropertyValue)
    requires WellFormed(g) && Holds(c, g) && v in g.nodes
    requires c.on in g.nodes[v].labels && key in c.properties ==> FitsSet(c, g, g.nodes[v], key, value)
    ensures Holds(c, SetNodeProperty(g, v, key, value))
  {
    var q := g.nodes[v].properties[key := value];
    var h := SetNodeProperty(g, v, key, value);
    assert h.nodes == g.nodes[v := g.nodes[v].(properties := q)] && h.edges == g.edges;
    SetKeepsNodes(c, g, v, key, value);
    RewriteKeepsEdges(c, g, v, q);
    if c.kind.Unique? {
      forall u | u in g.nodes && u != v && c.on in g.nodes[u].labels && c.on in g.nodes[v].labels
        ensures !SameValues(c.properties, g.nodes[u].properties, q)
      {
        if key in c.properties {
          assert !ClashesAt(c, g.nodes[u], u, q, Some(v));
        } else {
          assert !SameValues(c.properties, g.nodes[u].properties, g.nodes[v].properties);
        }
      }
      UniqueRewrite(c, g, v, q);
    }
  }

  lemma SetKeepsNodes(c: Constraint, g: Graph, v: NodeId, key: string, value: PropertyValue)
    requires WellFormed(g) && Holds(c, g) && v in g.nodes
    requires c.on in g.nodes[v].labels && key in c.properties ==> FitsSet(c, g, g.nodes[v], key, value)
    ensures c.on in g.nodes[v].labels ==> NodeMeets(c, g.nodes[v].(properties := g.nodes[v].properties[key := value]))
  {
  }

  lemma RewriteKeepsEdges(c: Constraint, g: Graph, v: NodeId, q: Properties)
    requires WellFormed(g) && Holds(c, g) && v in g.nodes
    ensures forall e :: e in g.edges && g.edges[e].edgeType == c.on ==>
      EdgeMeets(c, Graph(g.nodes[v := g.nodes[v].(properties := q)], g.edges), g.edges[e])
  {
  }

  lemma UniqueRewrite(c: Constraint, g: Graph, v: NodeId, q: Properties)
    requires Holds(c, g) && c.kind.Unique? && v in g.nodes
    requires forall u :: u in g.nodes && u != v && c.on in g.nodes[u].labels && c.on in g.nodes[v].labels ==>
      !SameValues(c.properties, g.nodes[u].properties, q)
    ensures var h := g.nodes[v := g.nodes[v].(properties := q)];
      forall u, w :: u in h && w in h && u != w && c.on in h[u].labels && c.on in h[w].labels ==>
        !SameValues(c.properties, h[u].properties, h[w].properties)
  {
    var h := g.nodes[v := g.nodes[v].(properties := q)];
    forall u, w | u in h && w in h && u != w && c.on in h[u].labels && c.on in h[w].labels
      ensures !SameValues(c.properties, h[u].properties, h[w].properties)
    {
      if u == v {
        SameValuesSymmetric(c.properties, q, h[w].properties);
      }
    }
  }

  lemma SameValuesSymmetric(ps: seq<string>, a: Properties, b: Properties)
    ensures SameValues(ps, a, b) <==> SameValues(ps, b, a)
  {
  }

  lemma CheckedRemoveKeeps(c: Constraint, g: Graph, v: NodeId, key: string)
    requires WellFormed(g) && Holds(c, g) && v in g.nodes
    requires c.on in g.nodes[v].labels && key in c.properties ==> !c.kind.NotNull?
    ensures Holds(c, RemoveNodeProperty(g, v, key))
  {
    var q := g.nodes[v].properties - {key};
    var h := RemoveNodeProperty(g, v, key);
    assert h.nodes == g.nodes[v := g.nodes[v].(properties := q)] && h.edges == g.edges;
    RewriteKeepsEdges(c, g, v, q);
    if c.kind.Unique? {
      forall u | u in g.nodes && u != v && c.on in g.nodes[u].labels && c.on in g.nodes[v].labels
        ensures !SameValues(c.properties, g.nodes[u].properties, q)
      {
        assert !SameValues(c.properties, g.nodes[u].properties, g.nodes[v].properties);
      }
      UniqueRewrite(c, g, v, q);
    }
  }

  lemma CheckedEdgeKeeps(c: Constraint, g: Graph, id: EdgeId, from: NodeId, to: NodeId, edgeType: string)
    requires WellFormed(g) && Holds(c, g) && id !in g.edges && from in g.nodes && to in g.nodes
    requires c.on == edgeType ==> FitsEdge(c, g, from, to)
    ensures Holds(c, AddEdge(g, id, from, to, edgeType))
  {
  }

  lemma DeletesKeep(c: Constraint, g: Graph, v: NodeId, e: EdgeId)
    requires WellFormed(g) && Holds(c, g)
    ensures Holds(c, DropNode(g, v)) && Holds(c, DropEdge(g, e))
  {
    SmallerHolds(c, g, DropEdge(g, e));
    SmallerHolds(c, g, DropNode(g, v)) by {
      DropNodeWellFormed(g, v);
    }
  }

  /** A constraint survives in any well-formed part of the graph. */
  lemma SmallerHolds(c: Constraint, g: Graph, h: Graph)
    requires Holds(c, g) && WellFormed(h)
    requires forall v :: v in h.nodes ==> v in g.nodes && h.nodes[v] == g.nodes[v]
    requires forall e :: e in h.edges ==> e in g.edges && h.edges[e] == g.edges[e]
    ensures Holds(c, h)
  {
    hide NodeMeets, SameValues;
    forall e | e in h.edges && h.edges[e].edgeType == c.on ensures EdgeMeets(c, h, h.edges[e]) {
      assert EdgeMeets(c, g, g.edges[e]);
    }
  }

  // ------------------------------------------------------------------------ whole runs

  datatype Change =
    | CreateNode(id: NodeId, labels: seq<string>, p: Properties)
    | CreateEdge(edge: EdgeId, from: NodeId, to: NodeId, edgeType: string)
    | SetProperty(v: NodeId, key: string, value: PropertyValue)
    | RemoveProperty(v: NodeId, key: string)
    | DeleteNode(v: NodeId)
    | DeleteEdge(edge: EdgeId)

  function After(g: Graph, change: Change): Graph {
    match change
    case CreateNode(id, labels, p) => Created(g, id, labels, p)
    case CreateEdge(e, from, to, t) => if from in g.nodes && to in g.nodes then AddEdge(g, e, from, to, t) else g
    case SetProperty(v, key, value) => SetNodeProperty(g, v, key, value)
    case RemoveProperty(v, key) => RemoveNodeProperty(g, v, key)
    case DeleteNode(v) => DropNode(g, v)
    case DeleteEdge(e) => DropEdge(g, e)
  }

  /** Ids are fresh and the manager accepted the change. */
  ghost predicate Checked(cs: Schema, g: Graph, change: Change) {
    match change
    case CreateNode(id, labels, p) => id !in g.nodes && AcceptsCreate(cs, g, Primary(labels), p, None)
    case CreateEdge(e, from, to, t) => e !in g.edges && AcceptsEdge(cs, g, t, from, to)
    case SetProperty(v, key, value) => v in g.nodes ==> AcceptsSet(cs, g, g.nodes[v], key, value)
    case RemoveProperty(v, key) => v in g.nodes ==> AcceptsRemove(cs, g.nodes[v], key)
    case _ => true
  }

  /** Labels behind the primary one carry no constraint; so it is for nodes with a single label. */
  ghost predicate Covered(cs: Schema, change: Change) {
    change.CreateNode? ==>
      forall k :: k in cs && cs[k].on in change.labels ==> cs[k].on == Primary(change.labels)
  }

  lemma SingleLabelCovered(cs: Schema, change: Change)
    requires change.CreateNode? ==> |change.labels| <= 1
    ensures Covered(cs, change)
  {
  }

  lemma CheckedStepKeeps(cs: Schema, g: Graph, change: Change)
    requires WellFormed(g) && AllHold(cs, g) && Checked(cs, g, change) && Covered(cs, change)
    ensures WellFormed(After(g, change)) && AllHold(cs, After(g, change))
  {
    hide Holds, FitsCreate, FitsSet, FitsEdge, WellFormed;
    AfterWellFormed(g, change);
    forall k | k in cs ensures Holds(cs[k], After(g, change)) {
      var c := cs[k];
      assert Holds(c, g);
      match change
      case CreateNode(id, labels, p) => CheckedCreateKeeps(c, g, id, labels, p);
      case CreateEdge(e, from, to, t) =>
        if from in g.nodes && to in g.nodes {
          CheckedEdgeKeeps(c, g, e, from, to, t);
        }
      case SetProperty(v, key, value) => if v in g.nodes { CheckedSetKeeps(c, g, v, key, value); }
      case RemoveProperty(v, key) => if v in g.nodes { CheckedRemoveKeeps(c, g, v, key); }
      case DeleteNode(v) => DeletesKeep(c, g, v, 0);
      case DeleteEdge(e) => DeletesKeep(c, g, 0, e);
    }
  }

  lemma AfterWellFormed(g: Graph, change: Change)
    requires WellFormed(g)
    ensures WellFormed(After(g, change))
  {
    hide WellFormed;
    match change
    case CreateNode(id, labels, p) =>
      AddNodeWellFormed(g, id, labels);
      PutWellFormed(AddNode(g, id, labels), id, 0, p, []);
    case CreateEdge(e, from, to, t) =>
      if from in g.nodes && to in g.nodes {
        AddEdgeWellFormed(g, e, from, to, t);
      }
    case SetProperty(v, key, value) => PutWellFormed(g, v, 0, NodeProperties(g, v)[key := value], []);
    case RemoveProperty(v, key) => PutWellFormed(g, v, 0, NodeProperties(g, v) - {key}, []);
    case DeleteNode(v) => DropNodeWellFormed(g, v);
    case DeleteEdge(e) => DropEdgeWellFormed(g, e);
  }

  // ------------------------------------------------------- nothing is refused without cause

  /** On a node's first label the check refuses exactly what would break the constraint, except that a required
      label other than the constraint's own refuses every node, also one that carries both labels. */
  lemma CreateCheckExact(c: Constraint, g: Graph, id: NodeId, labels: seq<string>, p: Properties)
    requires WellFormed(g) && Holds(c, g) && id !in g.nodes && labels != [] && c.on == labels[0]
    ensures FitsCreate(c, g, c.on, p, None) <==>
      Holds(c, Created(g, id, labels, p)) && (c.kind.RequiredLabel? ==> c.kind.required == c.on)
  {
    CreateKeepsIff(c, g, id, labels, p);
    hide Holds, Clashes, Created;
  }

  lemma SetCheckExact(c: Constraint, g: Graph, v: NodeId, key: string, value: PropertyValue)
    requires WellFormed(g) && Holds(c, g) && v in g.nodes && c.on in g.nodes[v].labels && key in c.properties
    ensures FitsSet(c, g, g.nodes[v], key, value) <==> Holds(c, SetNodeProperty(g, v, key, value))
  {
    var n, q := g.nodes[v], g.nodes[v].properties[key := value];
    var h := SetNodeProperty(g, v, key, value);
    if FitsSet(c, g, n, key, value) {
      CheckedSetKeeps(c, g, v, key, value);
    } else {
      assert h.nodes[v] == n.(properties := q) && q[key] == value;
      if c.kind.Unique? {
        var u :| u in g.nodes && ClashesAt(c, g.nodes[u], u, q, Some(v));
        assert u != v && h.nodes[u] == g.nodes[u];
        assert SameValues(c.properties, h.nodes[u].properties, h.nodes[v].properties);
      } else {
        assert !NodeMeets(c, h.nodes[v]);
      }
    }
  }

  lemma RemoveCheckExact(c: Constraint, g: Graph, v: NodeId, key: string)
    requires WellFormed(g) && Holds(c, g) && v in g.nodes && c.on in g.nodes[v].labels && key in c.properties
    ensures !c.kind.NotNull? <==> Holds(c, RemoveNodeProperty(g, v, key))
  {
    if c.kind.NotNull? {
      var h := RemoveNodeProperty(g, v, key);
      assert key !in h.nodes[v].properties && h.nodes[v].labels == g.nodes[v].labels;
      assert !NodeMeets(c, h.nodes[v]);
    } else {
      CheckedRemoveKeeps(c, g, v, key);
    }
  }

  lemma EdgeCheckExact(c: Constraint, g: Graph, id: EdgeId, from: NodeId, to: NodeId)
    requires WellFormed(g) && Holds(c, g) && id !in g.edges && from in g.nodes && to in g.nodes
    ensures FitsEdge(c, g, from, to) <==> Holds(c, AddEdge(g, id, from, to, c.on))
  {
    if FitsEdge(c, g, from, to) {
      CheckedEdgeKeeps(c, g, id, from, to, c.on);
    } else {
      var h := AddEdge(g, id, from, to, c.on);
      assert h.edges[id].edgeType == c.on && !EdgeMeets(c, h, h.edges[id]);
    }
  }

  /** The change is of live elements, under a fresh id, and no label it checks requires another one. */
  ghost predicate Plain(cs: Schema, g: Graph, change: Change) {
    match change
    case CreateNode(id, labels, _) =>
      && id !in g.nodes && labels != []
      && forall k :: k in cs && cs[k].on == labels[0] && cs[k].kind.RequiredLabel? ==> cs[k].kind.required == labels[0]
    case CreateEdge(e, from, to, _) => e !in g.edges && from in g.nodes && to in g.nodes
    case SetProperty(v, _, _) => v in g.nodes
    case RemoveProperty(v, _) => v in g.nodes
    case _ => true
  }

  /** The manager accepts exactly the changes after which the whole schema is still true of the graph. */
  lemma AcceptedIffKept(cs: Schema, g: Graph, change: Change)
    requires WellFormed(g) && AllHold(cs, g) && Covered(cs, change) && Plain(cs, g, change)
    ensures Checked(cs, g, change) <==> AllHold(cs, After(g, change))
  {
    hide Holds, FitsCreate, FitsSet, FitsEdge, WellFormed, Created, SetNodeProperty, RemoveNodeProperty, AddEdge;
    if Checked(cs, g, change) {
      CheckedStepKeeps(cs, g, change);
    } else {
      match change
      case CreateNode(id, labels, p) =>
        var k :| k in cs && cs[k].on == labels[0] && !FitsCreate(cs[k], g, labels[0], p, None);
        assert Holds(cs[k], g);
        CreateCheckExact(cs[k], g, id, labels, p);
      case CreateEdge(e, from, to, t) =>
        var k :| k in cs && cs[k].on == t && !FitsEdge(cs[k], g, from, to);
        assert Holds(cs[k], g);
        EdgeCheckExact(cs[k], g, e, from, to);
      case SetProperty(v, key, value) =>
        var k :| k in cs && cs[k].on in g.nodes[v].labels && key in cs[k].properties &&
          !FitsSet(cs[k], g, g.nodes[v], key, value);
        assert Holds(cs[k], g);
        SetCheckExact(cs[k], g, v, key, value);
      case RemoveProperty(v, key) =>
        var k :| k in cs && cs[k].on in g.nodes[v].labels && key in cs[k].properties && cs[k].kind.NotNull?;
        assert Holds(cs[k], g);
        RemoveCheckExact(cs[k], g, v, key);
    }
  }

  /** A node with both the label and the one it requires is refused, though it breaks nothing. */
  lemma RequiredLabelRefusesBoth()
    ensures var cs := map["c" := Constraint("c", "A", [], RequiredLabel("B"))];
      var change := CreateNode(0, ["A", "B"], map[]);
      var empty := Graph(map[], map[]);
      AllHold(cs, empty) && !Checked(cs, empty, change) && AllHold(cs, After(empty, change))
  {
    var c := Constraint("c", "A", [], RequiredLabel("B"));
    var cs := map["c" := c];
    var empty := Graph(map[], map[]);
    assert "B" != "A" by { assert "B"[0] != "A"[0]; }
    assert Holds(cs["c"], empty);
    assert ["A", "B"][0] == "A" && ["A", "B"][1] == "B";
    CreateCheckExact(c, empty, 0, ["A", "B"], map[]);
    CreateKeepsIff(c, empty, 0, ["A", "B"], map[]);
    assert cs["c"].on == Primary(["A", "B"]) && !FitsCreate(cs["c"], empty, "A", map[], None);
  }

  /** A run of accepted changes that starts with the empty graph. */
  ghost predicate CheckedRun(cs: Schema, gs: seq<Graph>, changes: seq<Change>) {
    && |gs| == |changes| + 1 && gs[0] == Graph(map[], map[])
    && forall n :: 0 <= n < |changes| ==>
      Checked(cs, gs[n], changes[n]) && Covered(cs, changes[n]) && gs[n + 1] == After(gs[n], changes[n])
  }

  /** Every constraint is true of the whole graph at every point of every such run. */
  lemma {:induction false} ConstraintsAlwaysHold(cs: Schema, gs: seq<Graph>, changes: seq<Change>, n: nat)
    requires CheckedRun(cs, gs, changes) && n < |gs|
    ensures WellFormed(gs[n]) && AllHold(cs, gs[n])
  {
    hide Checked, Covered, After;
    if n > 0 {
      ConstraintsAlwaysHold(cs, gs, changes, n - 1);
      hide WellFormed, AllHold;
      CheckedStepKeeps(cs, gs[n - 1], changes[n - 1]);
    }
  }

  /** In particular when every node is created with at most one label. */
  lemma SingleLabelRunsHold(cs: Schema, gs: seq<Graph>, changes: seq<Change>, n: nat)
    requires |gs| == |changes| + 1 && gs[0] == Graph(map[], map[]) && n < |gs|
    requires forall i :: 0 <= i < |changes| ==> Checked(cs, gs[i], changes[i]) && gs[i + 1] == After(gs[i], changes[i])
    requires forall i :: 0 <= i < |changes| && changes[i].CreateNode? ==> |changes[i].labels| <= 1
    ensures AllHold(cs, gs[n])
  {
    hide Checked, Covered, After, AllHold;
    forall i | 0 <= i < |changes| ensures Covered(cs, changes[i]) {
      SingleLabelCovered(cs, changes[i]);
    }
    ConstraintsAlwaysHold(cs, gs, changes, n);
  }

  /** A second label with a constraint of its own is not looked at: the change is accepted and breaks it. */
  lemma SecondLabelEscapes()
    ensures var cs := map["c" := Constraint("c", "B", ["p"], NotNull)];
      var change := CreateNode(0, ["A", "B"], map[]);
      var empty := Graph(map[], map[]);
      AllHold(cs, empty) && Checked(cs, empty, change) && !AllHold(cs, After(empty, change))
  {
    var c := Constraint("c", "B", ["p"], NotNull);
    var cs := map["c" := c];
    var empty := Graph(map[], map[]);
    var h := After(empty, CreateNode(0, ["A", "B"], map[]));
    assert h.nodes[0] == Node(0, ["A", "B"], map[]);
    assert ["A", "B"][1] == "B" && "p" in ["p"] by {
      assert ["p"][0] == "p";
    }
    assert !NodeMeets(c, h.nodes[0]);
    assert !Holds(cs["c"], h);
    assert "B" != "A" by { assert "B"[0] != "A"[0]; }
    assert Holds(cs["c"], empty);
  }
}
