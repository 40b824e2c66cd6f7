/** PageRank over the reals. */
module PageRank {
  import opened Multigraph
  import opened Sums

  type Vector = nat -> real

  function Abs(x: real): real { if x < 0.0 then -x else x }

  // ----------------------------------------------- the operator and its properties

  ghost function Degree(g: Graph, v: NodeId): real { |Out(g, v)| as real }

  /** Nodes without outgoing edges. */
  function Dangling(g: Graph): set<NodeId> {
    set v | v in g.nodes && Out(g, v) == {}
  }

  /** What flows along an edge: an equal share of its source's score. */
  ghost function Flow(g: Graph, x: Vector): Vector {
    (e: nat) => if e in g.edges then Ratio(x(g.edges[e].from), Degree(g, g.edges[e].from)) else 0.0
  }

  ghost function Inflow(g: Graph, x: Vector): Vector {
    (v: nat) => Sum(In(g, v), Flow(g, x))
  }

  /** The score of dangling nodes is spread evenly. */
  ghost function Spread(g: Graph, x: Vector): Vector {
    (v: nat) => Ratio(Sum(Dangling(g), x), |g.nodes| as real)
  }

  /** The undamped step. */
  ghost function Push(g: Graph, x: Vector): Vector {
    (v: nat) => Inflow(g, x)(v) + Spread(g, x)(v)
  }

  /** One iteration: teleport plus the damped step. */
  ghost function Iteration(g: Graph, d: real, x: Vector): Vector {
    (v: nat) => Ratio(1.0 - d, |g.nodes| as real) + Times(d, Push(g, x)(v))
  }

  ghost function Iterate(g: Graph, d: real, k: nat): Vector {
    if k == 0 then (v: nat) => Ratio(1.0, |g.nodes| as real) else Iteration(g, d, Iterate(g, d, k - 1))
  }

  /** The L1 norm of a difference over the nodes. */
  ghost function Gap(x: Vector, y: Vector): Vector {
    (v: nat) => Abs(x(v) - y(v))
  }

  ghost function Distance(g: Graph, x: Vector, y: Vector): real {
    Sum(g.nodes.Keys, Gap(x, y))
  }

  ghost function Outflow(g: Graph, x: Vector): Vector {
    (v: nat) => Sum(Out(g, v), Flow(g, x))
  }

  lemma RatioWhole(x: real, n: nat)
    requires n > 0
    ensures Times(Ratio(x, n as real), n as real) == x
  {
  }

  /** A node with outgoing edges hands out exactly its score. */
  lemma OutflowValue(g: Graph, x: Vector, v: NodeId)
    ensures Outflow(g, x)(v) == if Out(g, v) == {} then 0.0 else x(v)
  {
    var share := Ratio(x(v), Degree(g, v));
    if Out(g, v) != {} {
      SumConst(Out(g, v), Flow(g, x), share);
      hide Sum, Times;
      RatioWhole(x(v), |Out(g, v)|);
    }
  }

  lemma FlowBothWays(g: Graph, x: Vector)
    requires WellFormed(g)
    ensures Sum(g.nodes.Keys, Inflow(g, x)) == Sum(g.nodes.Keys, Outflow(g, x))
  {
    var edges := g.edges.Keys;
    forall v | v in g.nodes.Keys
      ensures Fibre(edges, ToOf(g), v) == In(g, v) && Fibre(edges, FromOf(g), v) == Out(g, v)
    {
    }
    assert forall e :: e in edges ==> ToOf(g)(e) in g.nodes.Keys && FromOf(g)(e) in g.nodes.Keys;
    hide Sum, Flow, In, Out, Fibre;
    SumFibre(edges, g.nodes.Keys, ToOf(g), Flow(g, x), Inflow(g, x));
    SumFibre(edges, g.nodes.Keys, FromOf(g), Flow(g, x), Outflow(g, x));
  }

  lemma OutflowTotal(g: Graph, x: Vector)
    ensures Sum(g.nodes.Keys, Outflow(g, x)) + Sum(Dangling(g), x) == Sum(g.nodes.Keys, x)
  {
    var live := g.nodes.Keys - Dangling(g);
    forall v | v in g.nodes.Keys ensures Outflow(g, x)(v) == if v in live then x(v) else 0.0 {
      OutflowValue(g, x, v);
    }
    hide Sum, Outflow;
    SumSupport(live, g.nodes.Keys, Outflow(g, x));
    SumCong(live, Outflow(g, x), x);
    SumUnion(live, Dangling(g), x);
    assert live + Dangling(g) == g.nodes.Keys;
  }

  /** The undamped step moves score around without creating or losing any. */
  lemma PushConserves(g: Graph, x: Vector)
    requires WellFormed(g) && g.nodes != map[]
    ensures Sum(g.nodes.Keys, Push(g, x)) == Sum(g.nodes.Keys, x)
  {
    hide Sum, Inflow, Times, Ratio, Outflow, Dangling;
    FlowBothWays(g, x);
    OutflowTotal(g, x);
    assert |g.nodes.Keys| == |g.nodes|;
    assert g.nodes.Keys != {};
    SumConst(g.nodes.Keys, Spread(g, x), Ratio(Sum(Dangling(g), x), |g.nodes| as real));
    RatioWhole(Sum(Dangling(g), x), |g.nodes|);
    SumAdd(g.nodes.Keys, Inflow(g, x), Spread(g, x), Push(g, x));
  }

  ghost function Teleport(g: Graph, d: real): Vector {
    (v: nat) => Ratio(1.0 - d, |g.nodes| as real)
  }

  ghost function Damped(g: Graph, d: real, x: Vector): Vector {
    (v: nat) => Times(d, Push(g, x)(v))
  }

  lemma IterationTotal(g: Graph, d: real, x: Vector)
    requires WellFormed(g) && g.nodes != map[] && Sum(g.nodes.Keys, x) == 1.0
    ensures Sum(g.nodes.Keys, Iteration(g, d, x)) == 1.0
  {
    assert Times(d, 1.0) == d;
    hide Sum, Times, Ratio, Push;
    assert |g.nodes.Keys| == |g.nodes|;
    assert g.nodes.Keys != {};
    PushConserves(g, x);
    SumConst(g.nodes.Keys, Teleport(g, d), Ratio(1.0 - d, |g.nodes| as real));
    RatioWhole(1.0 - d, |g.nodes|);
    SumScale(g.nodes.Keys, d, Push(g, x), Damped(g, d, x));
    SumAdd(g.nodes.Keys, Teleport(g, d), Damped(g, d, x), Iteration(g, d, x));
  }

  /** Scores always add up to one. */
  lemma {:induction false} ScoresSumToOne(g: Graph, d: real, k: nat)
    requires WellFormed(g) && g.nodes != map[]
    ensures Sum(g.nodes.Keys, Iterate(g, d, k)) == 1.0
  {
    hide Sum, Iteration;
    if k == 0 {
      assert |g.nodes.Keys| == |g.nodes|;
      assert g.nodes.Keys != {};
      SumConst(g.nodes.Keys, Iterate(g, d, 0), Ratio(1.0, |g.nodes| as real));
      RatioWhole(1.0, |g.nodes|);
    } else {
      ScoresSumToOne(g, d, k - 1);
      IterationTotal(g, d, Iterate(g, d, k - 1));
    }
  }

  // ---------------------------------------------------------------- contraction

  ghost function Minus(x: Vector, y: Vector): Vector { (v: nat) => x(v) - y(v) }
  ghost function Size(x: Vector): Vector { (v: nat) => Abs(x(v)) }

  lemma {:induction false} SumMinus(s: set<nat>, x: Vector, y: Vector, z: Vector)
    requires forall v :: v in s ==> z(v) == x(v) - y(v)
    ensures Sum(s, z) == Sum(s, x) - Sum(s, y)
  {
    SumAdd(s, z, y, x);
  }

  lemma {:induction false} SumAbs(s: set<nat>, x: Vector, y: Vector)
    requires forall v :: v in s ==> Abs(x(v)) <= y(v)
    ensures Abs(Sum(s, x)) <= Sum(s, y)
    decreases s
  {
    if s != {} {
      var v :| v in s;
      SumPick(s, x, v);
      SumPick(s, y, v);
      SumAbs(s - {v}, x, y);
    }
  }

  lemma RatioMinus(x: real, y: real, n: real)
    ensures Ratio(x - y, n) == Ratio(x, n) - Ratio(y, n)
  {
  }

  lemma RatioAbs(x: real, n: real)
    requires n >= 0.0
    ensures Abs(Ratio(x, n)) == Ratio(Abs(x), n)
  {
    if n > 0.0 {
      if x < 0.0 {
        assert (-x) / n == -(x / n);
        assert x / n <= 0.0;
      } else {
        assert x / n >= 0.0;
      }
    }
  }

  /** The step is linear ... */
  lemma PushMinus(g: Graph, x: Vector, y: Vector, v: NodeId)
    ensures Push(g, Minus(x, y))(v) == Push(g, x)(v) - Push(g, y)(v)
  {
    hide Sum, Ratio;
    forall e | e in In(g, v) ensures Flow(g, Minus(x, y))(e) == Flow(g, x)(e) - Flow(g, y)(e) {
      RatioMinus(x(g.edges[e].from), y(g.edges[e].from), Degree(g, g.edges[e].from));
    }
    SumMinus(In(g, v), Flow(g, x), Flow(g, y), Flow(g, Minus(x, y)));
    SumMinus(Dangling(g), x, y, Minus(x, y));
    RatioMinus(Sum(Dangling(g), x), Sum(Dangling(g), y), |g.nodes| as real);
    PushValue(g, x, v);
    PushValue(g, y, v);
    PushValue(g, Minus(x, y), v);
  }

  lemma PushValue(g: Graph, x: Vector, v: NodeId)
    ensures Inflow(g, x)(v) == Sum(In(g, v), Flow(g, x))
    ensures Spread(g, x)(v) == Ratio(Sum(Dangling(g), x), |g.nodes| as real)
    ensures Push(g, x)(v) == Inflow(g, x)(v) + Spread(g, x)(v)
  {
  }

  /** ... and does not enlarge sizes. */
  lemma PushAbs(g: Graph, x: Vector, v: NodeId)
    ensures Abs(Push(g, x)(v)) <= Push(g, Size(x))(v)
  {
    hide Sum, Ratio, Degree;
    InflowAbs(g, x, v);
    SpreadAbs(g, x, v);
    hide Inflow, Spread;
  }

  lemma InflowAbs(g: Graph, x: Vector, v: NodeId)
    ensures Abs(Inflow(g, x)(v)) <= Inflow(g, Size(x))(v)
  {
    hide Sum, Ratio;
    forall e | e in In(g, v) ensures Abs(Flow(g, x)(e)) <= Flow(g, Size(x))(e) {
      RatioAbs(x(g.edges[e].from), Degree(g, g.edges[e].from));
    }
    SumAbs(In(g, v), Flow(g, x), Flow(g, Size(x)));
  }

  lemma SpreadAbs(g: Graph, x: Vector, v: NodeId)
    ensures Abs(Spread(g, x)(v)) <= Spread(g, Size(x))(v)
  {
    SumAbs(Dangling(g), x, Size(x));
    hide Sum, Dangling;
    RatioAbs(Sum(Dangling(g), x), |g.nodes| as real);
    RatioMonotone(Abs(Sum(Dangling(g), x)), Sum(Dangling(g), Size(x)), |g.nodes| as real);
  }

  lemma RatioMonotone(x: real, y: real, n: real)
    requires x <= y && n >= 0.0
    ensures Ratio(x, n) <= Ratio(y, n)
  {
  }

  lemma TimesAbs(d: real, x: real, y: real)
    requires 0.0 <= d && Abs(x) <= y
    ensures Abs(Times(d, x)) <= Times(d, y)
  {
    if x < 0.0 {
      assert d * x <= 0.0 && d * (-x) <= d * y;
    } else {
      assert d * x >= 0.0 && d * x <= d * y;
    }
  }

  ghost function ScaledSize(g: Graph, d: real, z: Vector): Vector {
    (v: nat) => Times(d, Push(g, Size(z))(v))
  }

  lemma GapBound(g: Graph, d: real, x: Vector, y: Vector, v: NodeId)
    requires 0.0 <= d
    ensures Gap(Iteration(g, d, x), Iteration(g, d, y))(v) <= ScaledSize(g, d, Minus(x, y))(v)
  {
    PushMinus(g, x, y, v);
    PushAbs(g, Minus(x, y), v);
    Distribute(d, Push(g, x)(v) - Push(g, y)(v), Push(g, y)(v));
    TimesAbs(d, Push(g, Minus(x, y))(v), Push(g, Size(Minus(x, y)))(v));
    hide Push, Times, Ratio;
  }

  /** One iteration brings any two score vectors closer by the damping factor. */
  lemma Contraction(g: Graph, d: real, x: Vector, y: Vector)
    requires WellFormed(g) && g.nodes != map[] && 0.0 <= d
    ensures Distance(g, Iteration(g, d, x), Iteration(g, d, y)) <= Times(d, Distance(g, x, y))
  {
    var z := Minus(x, y);
    forall v | v in g.nodes.Keys ensures Gap(Iteration(g, d, x), Iteration(g, d, y))(v) <= ScaledSize(g, d, z)(v) {
      GapBound(g, d, x, y, v);
    }
    SumCong(g.nodes.Keys, Gap(x, y), Size(z));
    hide Sum, Iteration, Gap, Push, Times, Size;
    SumLe(g.nodes.Keys, Gap(Iteration(g, d, x), Iteration(g, d, y)), ScaledSize(g, d, z));
    SumScale(g.nodes.Keys, d, Push(g, Size(z)), ScaledSize(g, d, z));
    PushConserves(g, Size(z));
  }

  ghost function Power(d: real, k: nat): real {
    if k == 0 then 1.0 else Times(d, Power(d, k - 1))
  }

  ghost predicate Distribution(g: Graph, x: Vector) {
    Sum(g.nodes.Keys, x) == 1.0 && forall v :: v in g.nodes.Keys ==> x(v) >= 0.0
  }

  lemma RatioNonNegative(x: real, n: real)
    requires x >= 0.0 && n >= 0.0
    ensures Ratio(x, n) >= 0.0
  {
  }

  lemma {:induction false} SumNonNegative(s: set<nat>, x: Vector)
    requires forall v :: v in s ==> x(v) >= 0.0
    ensures Sum(s, x) >= 0.0
    decreases s
  {
    if s != {} {
      var v :| v in s;
      SumPick(s, x, v);
      SumNonNegative(s - {v}, x);
    }
  }

  lemma PushNonNegative(g: Graph, x: Vector, v: NodeId)
    requires WellFormed(g) && forall u :: u in g.nodes.Keys ==> x(u) >= 0.0
    ensures Push(g, x)(v) >= 0.0
  {
    hide Ratio, Sum, Degree;
    forall e | e in In(g, v) ensures Flow(g, x)(e) >= 0.0 {
      DegreeNonNegative(g, g.edges[e].from);
      RatioNonNegative(x(g.edges[e].from), Degree(g, g.edges[e].from));
    }
    SumNonNegative(In(g, v), Flow(g, x));
    SumNonNegative(Dangling(g), x);
    RatioNonNegative(Sum(Dangling(g), x), |g.nodes| as real);
    hide Push, Inflow, Spread, Flow, Dangling, In;
    PushValue(g, x, v);
  }

  lemma DegreeNonNegative(g: Graph, v: NodeId)
    ensures Degree(g, v) >= 0.0
  {
  }

  lemma IterationNonNegative(g: Graph, d: real, x: Vector, v: NodeId)
    requires WellFormed(g) && 0.0 <= d <= 1.0 && forall u :: u in g.nodes.Keys ==> x(u) >= 0.0
    ensures Iteration(g, d, x)(v) >= 0.0
  {
    hide Ratio, Push, Times;
    PushNonNegative(g, x, v);
    RatioNonNegative(1.0 - d, |g.nodes| as real);
    TimesMonotone(d, 0.0, Push(g, x)(v));
    TimesZero(d);
  }

  lemma TimesZero(d: real)
    ensures Times(d, 0.0) == 0.0
  {
  }

  /** Every iterate is a probability distribution over the nodes. */
  lemma {:induction false} IterateIsDistribution(g: Graph, d: real, k: nat)
    requires WellFormed(g) && g.nodes != map[] && 0.0 <= d <= 1.0
    ensures Distribution(g, Iterate(g, d, k))
  {
    hide Sum, Iteration;
    ScoresSumToOne(g, d, k);
    if k == 0 {
      RatioNonNegative(1.0, |g.nodes| as real);
    } else {
      IterateIsDistribution(g, d, k - 1);
      forall v | v in g.nodes.Keys ensures Iterate(g, d, k)(v) >= 0.0 {
        IterationNonNegative(g, d, Iterate(g, d, k - 1), v);
      }
    }
  }

  ghost function Both(x: Vector, y: Vector): Vector { (v: nat) => x(v) + y(v) }

  lemma DistributionsWithinTwo(g: Graph, x: Vector, y: Vector)
    requires Distribution(g, x) && Distribution(g, y)
    ensures Distance(g, x, y) <= 2.0
  {
    SumAdd(g.nodes.Keys, x, y, Both(x, y));
    SumLe(g.nodes.Keys, Gap(x, y), Both(x, y));
  }

  lemma TimesMonotone(d: real, x: real, y: real)
    requires 0.0 <= d && x <= y
    ensures Times(d, x) <= Times(d, y)
  {
  }

  lemma TimesSwap(x: real, y: real, z: real)
    ensures Times(x, Times(y, z)) == Times(y, Times(x, z))
  {
  }

  /** The step difference shrinks geometrically, from at most two. */
  lemma {:induction false} StepDifference(g: Graph, d: real, k: nat)
    requires WellFormed(g) && g.nodes != map[] && 0.0 <= d <= 1.0
    ensures Distance(g, Iterate(g, d, k + 1), Iterate(g, d, k)) <= Times(2.0, Power(d, k))
  {
    hide Distance, Iteration, Times, Distribution;
    if k == 0 {
      IterateIsDistribution(g, d, 0);
      IterateIsDistribution(g, d, 1);
      DistributionsWithinTwo(g, Iterate(g, d, 1), Iterate(g, d, 0));
      assert Power(d, 0) == 1.0;
      TwoTimesOne();
    } else {
      StepDifference(g, d, k - 1);
      Contraction(g, d, Iterate(g, d, k), Iterate(g, d, k - 1));
      TimesMonotone(d, Distance(g, Iterate(g, d, k), Iterate(g, d, k - 1)), Times(2.0, Power(d, k - 1)));
      TimesSwap(d, 2.0, Power(d, k - 1));
    }
  }

  lemma TwoTimesOne()
    ensures Times(2.0, 1.0) == 2.0
  {
  }

  ghost predicate Stationary(g: Graph, d: real, x: Vector) {
    Distribution(g, x) && Distance(g, Iteration(g, d, x), x) == 0.0
  }

  lemma Triangle(g: Graph, x: Vector, y: Vector, z: Vector)
    ensures Distance(g, x, z) <= Distance(g, x, y) + Distance(g, y, z)
  {
    SumAdd(g.nodes.Keys, Gap(x, y), Gap(y, z), Both(Gap(x, y), Gap(y, z)));
    SumLe(g.nodes.Keys, Gap(x, z), Both(Gap(x, y), Gap(y, z)));
  }

  /** After k iterations the scores are within 2 d^k of any stationary distribution. */
  lemma {:induction false} CloseToStationary(g: Graph, d: real, k: nat, p: Vector)
    requires WellFormed(g) && g.nodes != map[] && 0.0 <= d <= 1.0 && Stationary(g, d, p)
    ensures Distance(g, Iterate(g, d, k), p) <= Times(2.0, Power(d, k))
  {
    hide Distance, Iteration, Times, Distribution;
    if k == 0 {
      IterateIsDistribution(g, d, 0);
      DistributionsWithinTwo(g, Iterate(g, d, 0), p);
      TwoTimesOne();
    } else {
      CloseToStationary(g, d, k - 1, p);
      Contraction(g, d, Iterate(g, d, k - 1), p);
      TimesMonotone(d, Distance(g, Iterate(g, d, k - 1), p), Times(2.0, Power(d, k - 1)));
      TimesSwap(d, 2.0, Power(d, k - 1));
      Triangle(g, Iterate(g, d, k), Iteration(g, d, p), p);
    }
  }

  // --------------------------------------------------------------- the algorithm

  datatype Config = Config(damping: real, maxIterations: nat, tolerance: real)
  datatype Outcome = Outcome(scores: map<NodeId, real>, iterations: nat, converged: bool)

  function DefaultConfig(): Config { Config(0.85, 100, 0.000001) }

  ghost function At(x: map<NodeId, real>): Vector {
    (v: nat) => if v in x then x[v] else 0.0
  }

  ghost predicate Agrees(g: Graph, x: map<NodeId, real>, y: Vector) {
    x.Keys == g.nodes.Keys && forall v :: v in x ==> x[v] == y(v)
  }

  ghost function Contribution(g: Graph, d: real, x: Vector): Vector {
    (e: nat) => if e in g.edges then Ratio(Times(d, x(g.edges[e].from)), Degree(g, g.edges[e].from)) else 0.0
  }

  lemma TimesRatio(d: real, x: real, n: real)
    ensures Ratio(Times(d, x), n) == Times(d, Ratio(x, n))
  {
  }

  method SumOver(nodes: set<NodeId>, values: map<NodeId, real>) returns (total: real)
    requires nodes <= values.Keys
    ensures total == Sum(nodes, At(values))
  {
    total := 0.0;
    var todo := nodes;
    assert nodes - todo == {};
    while todo != {}
      invariant todo <= nodes && total == Sum(nodes - todo, At(values))
    {
      var v :| v in todo;
      SumInsert(nodes - todo, At(values), v);
      assert nodes - (todo - {v}) == nodes - todo + {v};
      total := total + values[v];
      todo := todo - {v};
    }
    assert nodes - todo == nodes;
  }

  /** new[v] holds `base` plus the contributions of the edges into v outside `todo`. */
  ghost predicate Accumulated(g: Graph, d: real, x: Vector, base: real, todo: set<EdgeId>, next: map<NodeId, real>) {
    && next.Keys == g.nodes.Keys
    && forall v :: v in next ==> next[v] == base + Sum(In(g, v) - todo, Contribution(g, d, x))
  }

  lemma AccumulateEdge(g: Graph, d: real, x: Vector, base: real, todo: set<EdgeId>, next: map<NodeId, real>, e: EdgeId,
                       c: real)
    requires WellFormed(g) && Accumulated(g, d, x, base, todo, next)
    requires e in todo && e in g.edges && c == Contribution(g, d, x)(e)
    ensures g.edges[e].to in next
    ensures Accumulated(g, d, x, base, todo - {e}, next[g.edges[e].to := next[g.edges[e].to] + c])
  {
    hide Sum, Contribution;
    var to := g.edges[e].to;
    forall v | v in g.nodes ensures In(g, v) - (todo - {e}) == In(g, v) - todo + (if v == to then {e} else {}) {
    }
    SumInsert(In(g, to) - todo, Contribution(g, d, x), e);
    forall v | v in g.nodes && v != to ensures In(g, v) - (todo - {e}) == In(g, v) - todo {
    }
  }

  method EdgeContributions(g: Graph, d: real, scores: map<NodeId, real>, degree: map<NodeId, nat>, base: real)
    returns (next: map<NodeId, real>)
    requires WellFormed(g) && scores.Keys == degree.Keys == g.nodes.Keys
    requires forall v :: v in degree ==> degree[v] == |Out(g, v)|
    ensures next.Keys == g.nodes.Keys
    ensures forall v :: v in next ==> next[v] == base + Sum(In(g, v), Contribution(g, d, At(scores)))
  {
    hide *;
    next := map v | v in g.nodes :: base;
    var todo := g.edges.Keys;
    NothingAccumulated(g, d, At(scores), base, next);
    while todo != {}
      invariant todo <= g.edges.Keys && Accumulated(g, d, At(scores), base, todo, next)
    {
      var e :| e in todo;
      var edge := g.edges[e];
      EdgeEnds(g, e);
      var fromDegree := degree[edge.from];
      var contribution := Contribute(g, d, scores, e, fromDegree);
      AccumulateEdge(g, d, At(scores), base, todo, next, e, contribution);
      if fromDegree > 0 {
        next := next[edge.to := next[edge.to] + contribution];
      }
      todo := todo - {e};
    }
    AllAccumulated(g, d, At(scores), base, next);
  }

  lemma EdgeEnds(g: Graph, e: EdgeId)
    requires WellFormed(g) && e in g.edges
    ensures g.edges[e].from in g.nodes.Keys && g.edges[e].to in g.nodes.Keys
  {
  }

  lemma NothingAccumulated(g: Graph, d: real, x: Vector, base: real, next: map<NodeId, real>)
    requires next == map v | v in g.nodes :: base
    ensures Accumulated(g, d, x, base, g.edges.Keys, next)
  {
    forall v ensures In(g, v) - g.edges.Keys == {} {
    }
  }

  lemma AllAccumulated(g: Graph, d: real, x: Vector, base: real, next: map<NodeId, real>)
    requires Accumulated(g, d, x, base, {}, next)
    ensures next.Keys == g.nodes.Keys
    ensures forall v :: v in next ==> next[v] == base + Sum(In(g, v), Contribution(g, d, x))
  {
    hide Sum, Contribution;
    forall v | v in next ensures In(g, v) - {} == In(g, v) {
    }
  }

  method Contribute(g: Graph, d: real, scores: map<NodeId, real>, e: EdgeId, degree: nat) returns (c: real)
    requires WellFormed(g) && scores.Keys == g.nodes.Keys && e in g.edges && degree == |Out(g, g.edges[e].from)|
    ensures degree > 0 && c == Contribution(g, d, At(scores))(e)
  {
    assert e in Out(g, g.edges[e].from);
    c := d * scores[g.edges[e].from] / degree as real;
  }

  /** One round of the main loop. */
  method Round(g: Graph, d: real, scores: map<NodeId, real>, degree: map<NodeId, nat>) returns (next: map<NodeId, real>)
    requires WellFormed(g) && g.nodes != map[] && scores.Keys == degree.Keys == g.nodes.Keys
    requires forall v :: v in degree ==> degree[v] == |Out(g, v)|
    ensures Agrees(g, next, Iteration(g, d, At(scores)))
    // each score written out: `share(e)` is the source's score over its number of edges
    ensures forall v, share :: v in next && SharesOut(g, scores, v, share) ==>
      next[v] == (1.0 - d) / |g.nodes| as real
                 + d * Sum(In(g, v), share)
                 + d * (Sum((set u | u in g.nodes && Out(g, u) == {}), At(scores)) / |g.nodes| as real)
  {
    hide *;
    next := RoundScores(g, d, scores, degree);
    RoundWrittenOut(g, d, scores, next);
  }

  method RoundScores(g: Graph, d: real, scores: map<NodeId, real>, degree: map<NodeId, nat>)
    returns (next: map<NodeId, real>)
    requires WellFormed(g) && g.nodes != map[] && scores.Keys == degree.Keys == g.nodes.Keys
    requires forall v :: v in degree ==> degree[v] == |Out(g, v)|
    ensures Agrees(g, next, Iteration(g, d, At(scores)))
  {
    hide *;
    var n := |g.nodes| as real;
    var teleport := Ratio(1.0 - d, n);
    next := EdgeContributions(g, d, scores, degree, teleport);
    var dangling := set v | v in g.nodes && degree[v] == 0;
    ZeroDegrees(g, degree, dangling);
    var danglingSum := SumOver(dangling, scores);
    var spread := Ratio(Times(d, danglingSum), n);
    ghost var pushed := next;
    next := map v | v in next :: next[v] + spread;
    forall v | v in next ensures next[v] == Iteration(g, d, At(scores))(v) {
      RoundValue(g, d, At(scores), v, teleport, pushed[v], spread);
    }
    MakeAgrees(g, next, Iteration(g, d, At(scores)));
  }

  lemma ZeroDegrees(g: Graph, degree: map<NodeId, nat>, dangling: set<NodeId>)
    requires degree.Keys == g.nodes.Keys && forall v :: v in degree ==> degree[v] == |Out(g, v)|
    requires dangling == set v | v in g.nodes && degree[v] == 0
    ensures dangling == Dangling(g)
  {
  }

  lemma MakeAgrees(g: Graph, x: map<NodeId, real>, y: Vector)
    requires x.Keys == g.nodes.Keys && forall v :: v in x ==> x[v] == y(v)
    ensures Agrees(g, x, y)
  {
  }

  /** Every edge into v hands on its source's score over the number of edges leaving the source. */
  ghost predicate SharesOut(g: Graph, scores: map<NodeId, real>, v: NodeId, share: Vector) {
    forall e :: e in In(g, v) && g.edges[e].from in scores ==>
      share(e) * |Out(g, g.edges[e].from)| as real == scores[g.edges[e].from]
  }

  lemma RoundWrittenOut(g: Graph, d: real, scores: map<NodeId, real>, next: map<NodeId, real>)
    requires WellFormed(g) && g.nodes != map[] && scores.Keys == g.nodes.Keys
    requires Agrees(g, next, Iteration(g, d, At(scores)))
    ensures forall v, share :: v in next && SharesOut(g, scores, v, share) ==>
      next[v] == (1.0 - d) / |g.nodes| as real
                 + d * Sum(In(g, v), share)
                 + d * (Sum((set u | u in g.nodes && Out(g, u) == {}), At(scores)) / |g.nodes| as real)
  {
    hide *;
    forall v, share | v in next && SharesOut(g, scores, v, share)
      ensures next[v] == (1.0 - d) / |g.nodes| as real
                         + d * Sum(In(g, v), share)
                         + d * (Sum((set u | u in g.nodes && Out(g, u) == {}), At(scores)) / |g.nodes| as real)
    {
      SharesAt(g, scores, v, share);
      IterationWrittenOut(g, d, At(scores), v, share);
      AgreesAt(g, next, Iteration(g, d, At(scores)), v);
    }
  }

  lemma AgreesAt(g: Graph, x: map<NodeId, real>, y: Vector, v: NodeId)
    requires Agrees(g, x, y) && v in x
    ensures x[v] == y(v)
  {
  }

  lemma SharesAt(g: Graph, scores: map<NodeId, real>, v: NodeId, share: Vector)
    requires WellFormed(g) && scores.Keys == g.nodes.Keys && SharesOut(g, scores, v, share)
    ensures forall e :: e in In(g, v) ==>
      e in g.edges && share(e) * |Out(g, g.edges[e].from)| as real == At(scores)(g.edges[e].from)
  {
  }

  // ------------------------------------------------------ the operator written out

  /** A node hands an equal share to each of its edges, and the shares make up its score. */
  lemma EqualShares(g: Graph, x: Vector, v: NodeId)
    requires Out(g, v) != {}
    ensures Sum(Out(g, v), Flow(g, x)) == x(v)
    ensures forall e, f :: e in Out(g, v) && f in Out(g, v) ==> Flow(g, x)(e) == Flow(g, x)(f)
  {
    hide Sum;
    OutflowValue(g, x, v);
  }

  /** One iteration over the graph itself: an even part of 1 - d, then d times what the sources of the edges
      into v hand on, each its score over its number of edges, and d times an even part of what dangling
      nodes hold. */
  lemma IterationWrittenOut(g: Graph, d: real, x: Vector, v: NodeId, share: Vector)
    requires g.nodes != map[]
    requires forall e :: e in In(g, v) ==>
      e in g.edges && share(e) * |Out(g, g.edges[e].from)| as real == x(g.edges[e].from)
    ensures Iteration(g, d, x)(v) ==
      (1.0 - d) / |g.nodes| as real
      + d * Sum(In(g, v), share)
      + d * (Sum((set u | u in g.nodes && Out(g, u) == {}), x) / |g.nodes| as real)
  {
    hide *;
    var n, gone := |g.nodes| as real, set u | u in g.nodes && Out(g, u) == {};
    SharesAreFlows(g, x, v, share);
    DanglingSet(g);
    NodesExist(g);
    SumCong(In(g, v), Flow(g, x), share);
    IterationValue(g, d, x, v);
    PlainArithmetic(d, n, Sum(In(g, v), share), Sum(gone, x));
  }

  lemma DanglingSet(g: Graph)
    ensures Dangling(g) == set u | u in g.nodes && Out(g, u) == {}
  {
  }

  lemma NodesExist(g: Graph)
    requires g.nodes != map[]
    ensures |g.nodes| as real != 0.0
  {
    assert g.nodes.Keys != {};
  }

  lemma IterationValue(g: Graph, d: real, x: Vector, v: NodeId)
    ensures Iteration(g, d, x)(v) ==
      Ratio(1.0 - d, |g.nodes| as real)
      + Times(d, Sum(In(g, v), Flow(g, x)) + Ratio(Sum(Dangling(g), x), |g.nodes| as real))
  {
    hide Sum, Flow, Ratio, Times, Dangling;
    PushValue(g, x, v);
  }

  lemma PlainArithmetic(d: real, n: real, a: real, b: real)
    requires n != 0.0
    ensures Ratio(1.0 - d, n) + Times(d, a + Ratio(b, n)) == (1.0 - d) / n + d * a + d * (b / n)
  {
    Distribute(d, a, Ratio(b, n));
  }

  lemma SharesAreFlows(g: Graph, x: Vector, v: NodeId, share: Vector)
    requires forall e :: e in In(g, v) ==>
      e in g.edges && share(e) * |Out(g, g.edges[e].from)| as real == x(g.edges[e].from)
    ensures forall e :: e in In(g, v) ==> Flow(g, x)(e) == share(e)
  {
    forall e | e in In(g, v) ensures Flow(g, x)(e) == share(e) {
      assert e in Out(g, g.edges[e].from);
      Divide(share(e), |Out(g, g.edges[e].from)| as real, x(g.edges[e].from));
    }
  }

  lemma Divide(share: real, n: real, score: real)
    requires n != 0.0 && share * n == score
    ensures Ratio(score, n) == share
  {
  }

  /** The iteration starts with even scores. */
  lemma StartIsEven(g: Graph, d: real, v: NodeId)
    requires g.nodes != map[]
    ensures Iterate(g, d, 0)(v) == 1.0 / |g.nodes| as real
  {
    assert g.nodes.Keys != {};
  }

  // ------------------------------------------------------- the names of edges do not matter

  /** The same nodes, and the same edges under other ids. */
  ghost predicate SameUpToEdgeIds(g: Graph, h: Graph, f: map<EdgeId, EdgeId>) {
    && g.nodes.Keys == h.nodes.Keys && Maps(f, g.edges.Keys, h.edges.Keys)
    && forall e :: e in g.edges ==>
      f[e] in h.edges && h.edges[f[e]].from == g.edges[e].from && h.edges[f[e]].to == g.edges[e].to
  }

  lemma SameEnds(g: Graph, h: Graph, f: map<EdgeId, EdgeId>, v: NodeId)
    requires SameUpToEdgeIds(g, h, f)
    ensures Maps(f, Out(g, v), Out(h, v)) && Maps(f, In(g, v), In(h, v))
  {
    forall y | y in Out(h, v) ensures exists x :: x in Out(g, v) && f[x] == y {
      var x :| x in g.edges.Keys && f[x] == y;
      assert x in Out(g, v);
    }
    forall y | y in In(h, v) ensures exists x :: x in In(g, v) && f[x] == y {
      var x :| x in g.edges.Keys && f[x] == y;
      assert x in In(g, v);
    }
  }

  lemma SameDegree(g: Graph, h: Graph, f: map<EdgeId, EdgeId>, v: NodeId)
    requires SameUpToEdgeIds(g, h, f)
    ensures |Out(g, v)| == |Out(h, v)|
  {
    SameEnds(g, h, f, v);
    hide SameUpToEdgeIds, Out, In;
    SumReindex(Out(g, v), Out(h, v), f, (e: nat) => 0.0, (e: nat) => 0.0);
  }

  lemma SameIteration(g: Graph, h: Graph, f: map<EdgeId, EdgeId>, d: real, x: Vector, v: NodeId)
    requires SameUpToEdgeIds(g, h, f)
    ensures Iteration(g, d, x)(v) == Iteration(h, d, x)(v)
  {
    hide *;
    SameEnds(g, h, f, v);
    SameFlows(g, h, f, x, v);
    SameSize(g, h, f);
    SumReindex(In(g, v), In(h, v), f, Flow(g, x), Flow(h, x));
    IterationValue(g, d, x, v);
    IterationValue(h, d, x, v);
  }

  lemma SameSize(g: Graph, h: Graph, f: map<EdgeId, EdgeId>)
    requires SameUpToEdgeIds(g, h, f)
    ensures |g.nodes| == |h.nodes|
  {
    assert |g.nodes| == |g.nodes.Keys| && |h.nodes| == |h.nodes.Keys|;
  }

  lemma SameFlows(g: Graph, h: Graph, f: map<EdgeId, EdgeId>, x: Vector, v: NodeId)
    requires SameUpToEdgeIds(g, h, f)
    ensures Dangling(g) == Dangling(h)
    ensures forall e :: e in In(g, v) ==> e in f && Flow(g, x)(e) == Flow(h, x)(f[e])
  {
    forall u ensures |Out(g, u)| == |Out(h, u)| && (Out(g, u) == {} <==> Out(h, u) == {}) {
      SameDegree(g, h, f, u);
    }
    MapsKeys(f, g.edges.Keys, h.edges.Keys);
    forall e | e in In(g, v) ensures e in f && Flow(g, x)(e) == Flow(h, x)(f[e]) {
      FlowOf(g, x, e);
      FlowOf(h, x, f[e]);
    }
  }

  lemma FlowOf(g: Graph, x: Vector, e: EdgeId)
    requires e in g.edges
    ensures Flow(g, x)(e) == Ratio(x(g.edges[e].from), |Out(g, g.edges[e].from)| as real)
  {
  }

  lemma MapsKeys(f: map<nat, nat>, A: set<nat>, B: set<nat>)
    requires Maps(f, A, B)
    ensures A <= f.Keys
  {
  }

  /** Renaming the edges leaves every score of every iteration the same. */
  lemma {:induction false} EdgeNamesDoNotMatter(g: Graph, h: Graph, f: map<EdgeId, EdgeId>, d: real, k: nat, v: NodeId)
    requires WellFormed(g) && SameUpToEdgeIds(g, h, f) && v in g.nodes
    ensures Iterate(g, d, k)(v) == Iterate(h, d, k)(v)
    decreases k
  {
    if k == 0 {
      assert |g.nodes| == |g.nodes.Keys| && |h.nodes| == |h.nodes.Keys|;
    } else {
      var x, y := Iterate(g, d, k - 1), Iterate(h, d, k - 1);
      forall u | u in g.nodes.Keys ensures x(u) == y(u) {
        EdgeNamesDoNotMatter(g, h, f, d, k - 1, u);
      }
      IterationCongruent(g, d, x, y, v);
      SameIteration(g, h, f, d, y, v);
    }
  }

  lemma RoundValue(g: Graph, d: real, x: Vector, v: NodeId, teleport: real, inflow: real, spread: real)
    requires g.nodes != map[]
    requires teleport == Ratio(1.0 - d, |g.nodes| as real)
    requires inflow == teleport + Sum(In(g, v), Contribution(g, d, x))
    requires spread == Ratio(Times(d, Sum(Dangling(g), x)), |g.nodes| as real)
    ensures inflow + spread == Iteration(g, d, x)(v)
  {
    hide *;
    ContributionIsFlow(g, d, x);
    SumScale(In(g, v), d, Flow(g, x), Contribution(g, d, x));
    TimesRatio(d, Sum(Dangling(g), x), |g.nodes| as real);
    IterationValue(g, d, x, v);
    Distribute(d, Sum(In(g, v), Flow(g, x)), Ratio(Sum(Dangling(g), x), |g.nodes| as real));
  }

  lemma ContributionIsFlow(g: Graph, d: real, x: Vector)
    ensures forall e :: Contribution(g, d, x)(e) == Times(d, Flow(g, x)(e))
  {
    forall e ensures Contribution(g, d, x)(e) == Times(d, Flow(g, x)(e)) {
      if e in g.edges {
        TimesRatio(d, x(g.edges[e].from), Degree(g, g.edges[e].from));
      }
    }
  }

  method L1Difference(g: Graph, a: map<NodeId, real>, b: map<NodeId, real>) returns (diff: real)
    requires a.Keys == b.Keys == g.nodes.Keys
    ensures diff == Distance(g, At(a), At(b))
  {
    hide Sum;
    var gaps := map v | v in g.nodes :: Abs(a[v] - b[v]);
    diff := SumOver(g.nodes.Keys, gaps);
    SumCong(g.nodes.Keys, At(gaps), Gap(At(a), At(b)));
  }

  /** The difference is the sum of the absolute differences. */
  lemma DistanceWrittenOut(g: Graph, x: Vector, y: Vector, gap: Vector)
    requires forall v :: v in g.nodes.Keys ==> gap(v) == if x(v) >= y(v) then x(v) - y(v) else y(v) - x(v)
    ensures Distance(g, x, y) == Sum(g.nodes.Keys, gap)
  {
    hide Sum;
    SumCong(g.nodes.Keys, Gap(x, y), gap);
  }

  /** How far apart iterates k - 1 and k are. */
  ghost function Change(g: Graph, d: real, k: nat): real
    requires k > 0
  {
    Distance(g, Iterate(g, d, k), Iterate(g, d, k - 1))
  }

  lemma IterationCongruent(g: Graph, d: real, x: Vector, y: Vector, v: NodeId)
    requires WellFormed(g) && forall u :: u in g.nodes.Keys ==> x(u) == y(u)
    ensures Iteration(g, d, x)(v) == Iteration(g, d, y)(v)
  {
    hide Sum, Ratio, Degree;
    SumCong(In(g, v), Flow(g, x), Flow(g, y));
    SumCong(Dangling(g), x, y);
    PushValue(g, x, v);
    PushValue(g, y, v);
  }

  lemma AgreesStep(g: Graph, d: real, scores: map<NodeId, real>, next: map<NodeId, real>, k: nat, diff: real)
    requires WellFormed(g) && Agrees(g, scores, Iterate(g, d, k)) && Agrees(g, next, Iteration(g, d, At(scores)))
    requires diff == Distance(g, At(next), At(scores))
    ensures Agrees(g, next, Iterate(g, d, k + 1)) && diff == Change(g, d, k + 1)
  {
    hide Iteration, Sum;
    var x := Iterate(g, d, k);
    forall v | v in next ensures next[v] == Iterate(g, d, k + 1)(v) {
      IterationCongruent(g, d, At(scores), x, v);
    }
    hide Iterate;
    SumCong(g.nodes.Keys, Gap(At(next), At(scores)), Gap(Iterate(g, d, k + 1), x));
  }

  /** The scores are exactly the iterates, and the run stops at the first change below the tolerance. */
  ghost predicate RunOf(g: Graph, config: Config, r: Outcome) {
    && r.iterations <= config.maxIterations
    && Agrees(g, r.scores, Iterate(g, config.damping, r.iterations))
    && (forall k :: 0 < k < r.iterations ==> Change(g, config.damping, k) >= config.tolerance)
    && (r.converged <==> r.iterations > 0 && Change(g, config.damping, r.iterations) < config.tolerance)
    && (!r.converged ==> r.iterations == config.maxIterations)
  }

  ghost predicate SoFar(g: Graph, config: Config, scores: map<NodeId, real>, iterations: nat, converged: bool) {
    && iterations <= config.maxIterations
    && Agrees(g, scores, Iterate(g, config.damping, iterations))
    && (forall k :: 0 < k < iterations ==> Change(g, config.damping, k) >= config.tolerance)
    && (converged <==> iterations > 0 && Change(g, config.damping, iterations) < config.tolerance)
  }

  lemma NextRound(g: Graph, config: Config, scores: map<NodeId, real>, iterations: nat, next: map<NodeId, real>,
                  diff: real)
    requires WellFormed(g) && SoFar(g, config, scores, iterations, false) && iterations < config.maxIterations
    requires Agrees(g, next, Iteration(g, config.damping, At(scores))) && diff == Distance(g, At(next), At(scores))
    ensures SoFar(g, config, next, iterations + 1, diff < config.tolerance)
  {
    hide Change, Agrees, Iterate, Iteration, Distance, At, WellFormed;
    AgreesStep(g, config.damping, scores, next, iterations, diff);
  }

  lemma SoFarKeys(g: Graph, config: Config, scores: map<NodeId, real>, iterations: nat, converged: bool)
    requires SoFar(g, config, scores, iterations, converged)
    ensures scores.Keys == g.nodes.Keys && iterations <= config.maxIterations
    ensures converged || iterations == config.maxIterations ==> RunOf(g, config, Outcome(scores, iterations, converged))
  {
    hide Change, Iterate;
  }

  method IterateScores(g: Graph, config: Config, scores0: map<NodeId, real>) returns (r: Outcome)
    requires WellFormed(g) && g.nodes != map[] && Agrees(g, scores0, Iterate(g, config.damping, 0))
    ensures RunOf(g, config, r)
  {
    assert SoFar(g, config, scores0, 0, false);
    hide *;
    var scores := scores0;
    var degree := map v | v in g.nodes :: |Out(g, v)|;
    var iterations, converged := 0, false;
    SoFarKeys(g, config, scores, iterations, converged);
    while iterations < config.maxIterations && !converged
      invariant iterations <= config.maxIterations && scores.Keys == g.nodes.Keys
      invariant SoFar(g, config, scores, iterations, converged)
      decreases config.maxIterations - iterations
    {
      iterations := iterations + 1;
      var next := Round(g, config.damping, scores, degree);
      AgreesKeys(g, next, Iteration(g, config.damping, At(scores)));
      var diff := L1Difference(g, next, scores);
      NextRound(g, config, scores, iterations - 1, next, diff);
      scores := next;
      if diff < config.tolerance {
        converged := true;
      }
    }
    SoFarKeys(g, config, scores, iterations, converged);
    r := Outcome(scores, iterations, converged);
  }

  method Pagerank(g: Graph, config: Config) returns (r: Outcome)
    requires WellFormed(g)
    ensures g.nodes == map[] ==> r == Outcome(map[], 0, true)
    ensures g.nodes != map[] ==> RunOf(g, config, r)
    // the default configuration always converges
    ensures config == Config(0.85, 100, 0.000001) ==> r.converged
  {
    if |g.nodes| == 0 {
      return Outcome(map[], 0, true);
    }
    var scores: map<NodeId, real> := map v | v in g.nodes :: 1.0 / |g.nodes| as real;
    assert Agrees(g, scores, Iterate(g, config.damping, 0));
    hide Change, Iterate, Agrees;
    r := IterateScores(g, config, scores);
    if config == DefaultConfig() {
      DefaultConverges(g);
    }
  }

  lemma AgreesKeys(g: Graph, x: map<NodeId, real>, y: Vector)
    requires Agrees(g, x, y)
    ensures x.Keys == g.nodes.Keys
  {
  }

  // ------------------------------------------------- convergence of the default

  lemma {:induction false} PowerAdd(d: real, j: nat, k: nat)
    ensures Power(d, j + k) == Times(Power(d, j), Power(d, k))
  {
    hide Times;
    if j == 0 {
      OneTimes(Power(d, k));
    } else {
      PowerAdd(d, j - 1, k);
      TimesAssociative(d, Power(d, j - 1), Power(d, k));
    }
  }

  lemma OneTimes(x: real) ensures Times(1.0, x) == x {}

  lemma TimesAssociative(x: real, y: real, z: real) ensures Times(x, Times(y, z)) == Times(Times(x, y), z) {}

  lemma Squared(x: real, y: real)
    requires 0.0 <= x <= y
    ensures 0.0 <= Times(x, x) <= Times(y, y)
  {
    assert x * x <= x * y <= y * y;
  }

  lemma TimesBound(x: real, y: real, a: real, b: real)
    requires 0.0 <= x <= a && 0.0 <= y <= b
    ensures 0.0 <= Times(x, y) <= Times(a, b)
  {
    assert x * y <= a * y <= a * b;
  }

  lemma PowerDoubles(k: nat, bound: real)
    requires 0.0 <= Power(0.85, k) <= bound
    ensures 0.0 <= Power(0.85, k + k) <= Times(bound, bound)
  {
    hide Times;
    PowerAdd(0.85, k, k);
    Squared(Power(0.85, k), bound);
  }

  lemma SmallPower()
    ensures Times(2.0, Power(0.85, 99)) < 0.000001
  {
    assert Power(0.85, 1) == 0.85;
    assert Power(0.85, 2) == 0.7225;
    PowerDoubles(2, 0.7225);
    PowerDoubles(4, 0.53);
    PowerDoubles(8, 0.29);
    PowerDoubles(16, 0.0842);
    PowerDoubles(32, 0.0071);
    PowerAdd(0.85, 64, 32);
    PowerAdd(0.85, 96, 3);
    assert Power(0.85, 3) == 0.614125;
    TimesBound(Power(0.85, 64), Power(0.85, 32), 0.0000505, 0.0071);
    TimesBound(Power(0.85, 96), Power(0.85, 3), 0.00000036, 0.62);
  }

  lemma DefaultConverges(g: Graph)
    requires WellFormed(g) && g.nodes != map[]
    ensures Change(g, 0.85, 100) < 0.000001
  {
    hide Iterate, Distance;
    SmallPower();
    StepDifference(g, 0.85, 99);
  }
}
