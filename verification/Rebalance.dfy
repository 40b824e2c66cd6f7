/** The shard map and its rebalance planner. */
module Rebalance {
  import opened Collections

  type ShardId = nat

  datatype ShardStatus = Active | Inactive | Rebalancing
  datatype ShardInfo = ShardInfo(id: ShardId, address: string, status: ShardStatus, nodeCount: nat)
  datatype ShardError = AlreadyExists(id: ShardId) | NotFound(id: ShardId)
  datatype Result = Ok | Err(error: ShardError)
  /** A planned move of one node. */
  datatype ShardMove = ShardMove(nodeId: nat, fromShard: ShardId, toShard: ShardId)

  /** A shard with an amount it has too much or too little. */
  datatype Load = Load(id: ShardId, amount: nat)

  type Shards = map<ShardId, ShardInfo>

  // ----------------------------------------------------------- what a plan does

  function Arrivals(moves: seq<ShardMove>, id: ShardId): nat {
    if moves == [] then 0
    else Arrivals(moves[..|moves| - 1], id) + (if moves[|moves| - 1].toShard == id then 1 else 0)
  }

  function Departures(moves: seq<ShardMove>, id: ShardId): nat {
    if moves == [] then 0
    else Departures(moves[..|moves| - 1], id) + (if moves[|moves| - 1].fromShard == id then 1 else 0)
  }

  /** The node count of a shard once the moves have been carried out. */
  function After(shards: Shards, moves: seq<ShardMove>, id: ShardId): int
    requires id in shards
  {
    shards[id].nodeCount + Arrivals(moves, id) - Departures(moves, id)
  }

  ghost predicate Increasing(ids: seq<ShardId>) {
    forall i, j :: 0 <= i < j < |ids| ==> ids[i] < ids[j]
  }

  predicate IsActive(shards: Shards, id: ShardId) { id in shards && shards[id].status == Active }

  /** ids lists the active shards in increasing order. */
  ghost predicate ActiveIds(shards: Shards, ids: seq<ShardId>) {
    Increasing(ids) && forall id :: id in ids <==> id in shards && shards[id].status == Active
  }

  function TotalNodes(shards: Shards, ids: seq<ShardId>): nat
    requires forall id :: id in ids ==> id in shards
  {
    if ids == [] then 0 else TotalNodes(shards, ids[..|ids| - 1]) + shards[ids[|ids| - 1]].nodeCount
  }

  function TotalAfter(shards: Shards, moves: seq<ShardMove>, ids: seq<ShardId>): int
    requires forall id :: id in ids ==> id in shards
  {
    if ids == [] then 0 else TotalAfter(shards, moves, ids[..|ids| - 1]) + After(shards, moves, ids[|ids| - 1])
  }

  /** A plan that balances at the rounded-down average, with one move for each missing node. */
  ghost predicate LiftsAll(shards: Shards, ids: seq<ShardId>, moves: seq<ShardMove>) {
    && |ids| > 0 && (forall id :: id in ids ==> id in shards)
    && Balances(shards, ids, TotalNodes(shards, ids) / |ids|, moves)
    && |moves| == Amounts(UnderLoads(shards, ids, TotalNodes(shards, ids) / |ids|))
  }

  lemma ActiveIdsUnique(shards: Shards, a: seq<ShardId>, b: seq<ShardId>)
    requires ActiveIds(shards, a) && ActiveIds(shards, b)
    ensures a == b
  {
    IncreasingUnique(a, b);
  }

  lemma {:induction false} IncreasingUnique(a: seq<ShardId>, b: seq<ShardId>)
    requires Increasing(a) && Increasing(b) && forall x :: x in a <==> x in b
    ensures a == b
    decreases |a|
  {
    assert b != [] ==> b[0] in b;
    if a != [] {
      var m, n := |a| - 1, |b| - 1;
      assert a[m] in a && a[m] in b;
      assert b[n] in b && b[n] in a;
      LastIsMost(a, b[n]);
      LastIsMost(b, a[m]);
      InitElems(a);
      InitElems(b);
      hide Increasing;
      assert a == a[..m] + [a[m]] && b == b[..n] + [b[n]];
      IncreasingUnique(a[..m], b[..n]);
    }
  }

  lemma InitElems(a: seq<ShardId>)
    requires Increasing(a) && a != []
    ensures var m := |a| - 1; Increasing(a[..m]) && forall x :: x in a[..m] <==> x in a && x != a[m]
  {
    var m := |a| - 1;
    assert a == a[..m] + [a[m]];
  }

  lemma LastIsMost(a: seq<ShardId>, x: ShardId)
    requires Increasing(a) && x in a
    ensures x <= a[|a| - 1]
  {
  }

  /** What a plan for the active shards must achieve, with `ideal` nodes per shard. */
  ghost predicate Balances(shards: Shards, ids: seq<ShardId>, ideal: nat, moves: seq<ShardMove>)
    requires forall id :: id in ids ==> id in shards
  {
    // moves only take from shards above the ideal and give to shards below it
    && (forall i :: 0 <= i < |moves| ==>
          && moves[i].nodeId == i
          && moves[i].fromShard in ids && shards[moves[i].fromShard].nodeCount > ideal
          && moves[i].toShard in ids && shards[moves[i].toShard].nodeCount < ideal)
    // shards below the ideal end exactly there, no shard falls below it
    && (forall id :: id in ids ==> if shards[id].nodeCount < ideal then After(shards, moves, id) == ideal
                                   else ideal <= After(shards, moves, id) <= shards[id].nodeCount)
  }

  // --------------------------------------------------------- loads and their sums

  function OverLoads(shards: Shards, ids: seq<ShardId>, ideal: nat): seq<Load>
    requires forall id :: id in ids ==> id in shards
  {
    if ids == [] then []
    else
      var id := ids[|ids| - 1];
      var rest := OverLoads(shards, ids[..|ids| - 1], ideal);
      if shards[id].nodeCount > ideal then rest + [Load(id, shards[id].nodeCount - ideal)] else rest
  }

  function UnderLoads(shards: Shards, ids: seq<ShardId>, ideal: nat): seq<Load>
    requires forall id :: id in ids ==> id in shards
  {
    if ids == [] then []
    else
      var id := ids[|ids| - 1];
      var rest := UnderLoads(shards, ids[..|ids| - 1], ideal);
      if shards[id].nodeCount < ideal then rest + [Load(id, ideal - shards[id].nodeCount)] else rest
  }

  lemma {:induction false} LoadsExactly(shards: Shards, ids: seq<ShardId>, ideal: nat, l: Load)
    requires forall id :: id in ids ==> id in shards
    ensures l in OverLoads(shards, ids, ideal) <==>
            l.id in ids && shards[l.id].nodeCount > ideal && l.amount == shards[l.id].nodeCount - ideal
    ensures l in UnderLoads(shards, ids, ideal) <==>
            l.id in ids && shards[l.id].nodeCount < ideal && l.amount == ideal - shards[l.id].nodeCount
    decreases |ids|
  {
    if ids != [] {
      var n := |ids| - 1;
      LoadsExactly(shards, ids[..n], ideal, l);
      assert l.id in ids <==> l.id in ids[..n] || l.id == ids[n];
    }
  }

  function Amounts(loads: seq<Load>): nat {
    if loads == [] then 0 else Amounts(loads[..|loads| - 1]) + loads[|loads| - 1].amount
  }

  ghost predicate DistinctIds(loads: seq<Load>) {
    forall i, j :: 0 <= i < j < |loads| ==> loads[i].id != loads[j].id
  }

  lemma {:induction false} LoadsDistinct(shards: Shards, ids: seq<ShardId>, ideal: nat)
    requires Increasing(ids) && forall id :: id in ids ==> id in shards
    ensures DistinctIds(OverLoads(shards, ids, ideal)) && DistinctIds(UnderLoads(shards, ids, ideal))
    decreases |ids|
  {
    if ids != [] {
      var n := |ids| - 1;
      LoadsDistinct(shards, ids[..n], ideal);
      var over, under := OverLoads(shards, ids[..n], ideal), UnderLoads(shards, ids[..n], ideal);
      forall i | 0 <= i < |over| ensures over[i].id != ids[n] {
        LoadsExactly(shards, ids[..n], ideal, over[i]);
      }
      forall i | 0 <= i < |under| ensures under[i].id != ids[n] {
        LoadsExactly(shards, ids[..n], ideal, under[i]);
      }
    }
  }

  /** Excess minus deficit is what the total has beyond the ideal. */
  lemma {:induction false} LoadsBalance(shards: Shards, ids: seq<ShardId>, ideal: nat)
    requires forall id :: id in ids ==> id in shards
    ensures Amounts(OverLoads(shards, ids, ideal)) - Amounts(UnderLoads(shards, ids, ideal)) ==
            TotalNodes(shards, ids) - |ids| * ideal
    decreases |ids|
  {
    if ids != [] {
      var n := |ids| - 1;
      LoadsBalance(shards, ids[..n], ideal);
      Multiple(n, ideal);
      hide Amounts;
      if shards[ids[n]].nodeCount > ideal {
        AmountsSnoc(OverLoads(shards, ids[..n], ideal), Load(ids[n], shards[ids[n]].nodeCount - ideal));
      } else if shards[ids[n]].nodeCount < ideal {
        AmountsSnoc(UnderLoads(shards, ids[..n], ideal), Load(ids[n], ideal - shards[ids[n]].nodeCount));
      }
    }
  }

  lemma Multiple(n: nat, ideal: nat)
    ensures (n + 1) * ideal == n * ideal + ideal
  {
  }

  lemma AmountsSnoc(loads: seq<Load>, l: Load)
    ensures Amounts(loads + [l]) == Amounts(loads) + l.amount
  {
    assert (loads + [l])[..|loads|] == loads;
  }

  lemma CountsSnoc(moves: seq<ShardMove>, m: ShardMove, id: ShardId)
    ensures Arrivals(moves + [m], id) == Arrivals(moves, id) + (if m.toShard == id then 1 else 0)
    ensures Departures(moves + [m], id) == Departures(moves, id) + (if m.fromShard == id then 1 else 0)
  {
    assert (moves + [m])[..|moves|] == moves;
  }

  // ------------------------------------------------------------------ the planner

  /** How far one of the two worklists has been used up: entries before k entirely, entry k up to `rem`. */
  ghost predicate UsedUp(loads: seq<Load>, count: ShardId -> nat, k: nat, rem: nat, moved: nat) {
    && k <= |loads| && (k < |loads| ==> rem <= loads[k].amount) && (k == |loads| ==> rem == 0)
    && (forall j :: 0 <= j < |loads| ==>
          count(loads[j].id) == if j < k then loads[j].amount else if j == k then loads[j].amount - rem else 0)
    && moved == Amounts(loads[..k]) + (if k < |loads| then loads[k].amount - rem else 0)
  }

  function ArrivalsOf(moves: seq<ShardMove>): ShardId -> nat { (id: ShardId) => Arrivals(moves, id) }
  function DeparturesOf(moves: seq<ShardMove>): ShardId -> nat { (id: ShardId) => Departures(moves, id) }

  lemma UseOne(loads: seq<Load>, count: ShardId -> nat, count': ShardId -> nat, k: nat, rem: nat, moved: nat)
    requires UsedUp(loads, count, k, rem, moved) && DistinctIds(loads) && k < |loads| && rem > 0
    requires forall id :: count'(id) == count(id) + (if id == loads[k].id then 1 else 0)
    ensures UsedUp(loads, count', k, rem - 1, moved + 1)
  {
  }

  lemma NextLoad(loads: seq<Load>, count: ShardId -> nat, k: nat, moved: nat)
    requires UsedUp(loads, count, k, 0, moved) && k < |loads|
    ensures UsedUp(loads, count, k + 1, if k + 1 < |loads| then loads[k + 1].amount else 0, moved)
  {
    assert loads[..k + 1][..k] == loads[..k];
  }

  lemma UseStart(loads: seq<Load>, count: ShardId -> nat)
    requires forall id :: count(id) == 0
    ensures UsedUp(loads, count, 0, if loads == [] then 0 else loads[0].amount, 0)
  {
  }

  lemma {:induction false} AmountsPrefix(loads: seq<Load>, k: nat)
    requires k <= |loads|
    ensures Amounts(loads[..k]) <= Amounts(loads)
    decreases |loads|
  {
    if k < |loads| {
      var n := |loads| - 1;
      AmountsPrefix(loads[..n], k);
      assert loads[..n][..k] == loads[..k];
    } else {
      assert loads[..k] == loads;
    }
  }

  lemma UsedAtMost(loads: seq<Load>, count: ShardId -> nat, k: nat, rem: nat, moved: nat)
    requires UsedUp(loads, count, k, rem, moved) && k < |loads|
    ensures moved + rem <= Amounts(loads)
  {
    AmountsPrefix(loads, k + 1);
    assert loads[..k + 1] == loads[..k] + [loads[k]];
    AmountsSnoc(loads[..k], loads[k]);
  }

  /** Each move is numbered, takes from an over-loaded shard and gives to an under-loaded one. */
  ghost predicate Targets(moves: seq<ShardMove>, over: seq<Load>, under: seq<Load>) {
    forall i :: 0 <= i < |moves| ==>
      && moves[i].nodeId == i
      && (exists j :: 0 <= j < |over| && over[j].id == moves[i].fromShard)
      && (exists j :: 0 <= j < |under| && under[j].id == moves[i].toShard)
  }

  ghost predicate Pairing(over: seq<Load>, under: seq<Load>, moves: seq<ShardMove>, i: nat, overRem: nat, j: nat,
                          underRem: nat) {
    && UsedUp(over, DeparturesOf(moves), i, overRem, |moves|)
    && UsedUp(under, ArrivalsOf(moves), j, underRem, |moves|)
    && Targets(moves, over, under)
  }

  lemma PushMove(over: seq<Load>, under: seq<Load>, moves: seq<ShardMove>, i: nat, overRem: nat, j: nat, underRem: nat,
                 m: ShardMove)
    requires DistinctIds(over) && DistinctIds(under) && Pairing(over, under, moves, i, overRem, j, underRem)
    requires i < |over| && j < |under| && overRem > 0 && underRem > 0
    requires m == ShardMove(|moves|, over[i].id, under[j].id)
    ensures Pairing(over, under, moves + [m], i, overRem - 1, j, underRem - 1)
  {
    var moves' := moves + [m];
    forall id ensures DeparturesOf(moves')(id) == DeparturesOf(moves)(id) + (if id == over[i].id then 1 else 0) {
      CountsSnoc(moves, m, id);
    }
    forall id ensures ArrivalsOf(moves')(id) == ArrivalsOf(moves)(id) + (if id == under[j].id then 1 else 0) {
      CountsSnoc(moves, m, id);
    }
    hide DistinctIds, Arrivals, Departures, ArrivalsOf, DeparturesOf;
    UseOne(over, DeparturesOf(moves), DeparturesOf(moves'), i, overRem, |moves|);
    UseOne(under, ArrivalsOf(moves), ArrivalsOf(moves'), j, underRem, |moves|);
    hide UsedUp;
  }

  lemma AdvanceOver(over: seq<Load>, under: seq<Load>, moves: seq<ShardMove>, i: nat, j: nat, underRem: nat)
    requires Pairing(over, under, moves, i, 0, j, underRem) && i < |over|
    ensures Pairing(over, under, moves, i + 1, if i + 1 < |over| then over[i + 1].amount else 0, j, underRem)
  {
    NextLoad(over, DeparturesOf(moves), i, |moves|);
    hide UsedUp, Targets;
  }

  lemma AdvanceUnder(over: seq<Load>, under: seq<Load>, moves: seq<ShardMove>, i: nat, overRem: nat, j: nat)
    requires Pairing(over, under, moves, i, overRem, j, 0) && j < |under|
    ensures Pairing(over, under, moves, i, overRem, j + 1, if j + 1 < |under| then under[j + 1].amount else 0)
  {
    NextLoad(under, ArrivalsOf(moves), j, |moves|);
    hide UsedUp, Targets;
  }

  lemma PairingStart(over: seq<Load>, under: seq<Load>)
    ensures Pairing(over, under, [], 0, if over == [] then 0 else over[0].amount, 0,
                    if under == [] then 0 else under[0].amount)
  {
    UseStart(over, DeparturesOf([]));
    UseStart(under, ArrivalsOf([]));
  }

  /** Pair the two worklists; each round finishes at least one entry. */
  method PairUp(over: seq<Load>, under: seq<Load>) returns (moves: seq<ShardMove>)
    requires DistinctIds(over) && DistinctIds(under) && Amounts(under) <= Amounts(over)
    requires forall l :: l in over || l in under ==> l.amount > 0
    ensures Pairing(over, under, moves, |over|, 0, |under|, 0) ||
            exists i: nat, rem: nat :: i < |over| && Pairing(over, under, moves, i, rem, |under|, 0)
  {
    hide Pairing;
    moves := [];
    var nextOver, nextUnder := 0, 0;
    PairingStart(over, under);
    var overRem: Option<Load> := if over == [] then None else Some(over[0]);
    var underRem: Option<Load> := if under == [] then None else Some(under[0]);
    while overRem.Some? && underRem.Some?
      invariant nextOver <= |over| && nextUnder <= |under|
      invariant overRem.Some? <==> nextOver < |over|
      invariant underRem.Some? <==> nextUnder < |under|
      invariant overRem.Some? ==> overRem.value.id == over[nextOver].id && overRem.value.amount > 0
      invariant underRem.Some? ==> underRem.value.id == under[nextUnder].id && underRem.value.amount > 0
      invariant Pairing(over, under, moves, nextOver, if overRem.Some? then overRem.value.amount else 0,
                        nextUnder, if underRem.Some? then underRem.value.amount else 0)
      decreases |over| - nextOver + |under| - nextUnder
    {
      var from, to := overRem.value, underRem.value;
      var batch := if from.amount <= to.amount then from.amount else to.amount;
      moves := PushBatch(over, under, moves, nextOver, from, nextUnder, to, batch);
      if from.amount > batch {
        overRem := Some(Load(from.id, from.amount - batch));
      } else {
        AdvanceOver(over, under, moves, nextOver, nextUnder, to.amount - batch);
        nextOver := nextOver + 1;
        overRem := if nextOver < |over| then Some(over[nextOver]) else None;
        assert nextOver < |over| ==> over[nextOver] in over;
      }
      if to.amount > batch {
        underRem := Some(Load(to.id, to.amount - batch));
      } else {
        AdvanceUnder(over, under, moves, nextOver, if overRem.Some? then overRem.value.amount else 0, nextUnder);
        nextUnder := nextUnder + 1;
        underRem := if nextUnder < |under| then Some(under[nextUnder]) else None;
        assert nextUnder < |under| ==> under[nextUnder] in under;
      }
    }
    if underRem.Some? {
      OverRunsOut(over, under, moves, nextUnder, underRem.value.amount);
      assert false;
    }
  }

  /** The over-loaded shards run out first only when they have less to give. */
  lemma OverRunsOut(over: seq<Load>, under: seq<Load>, moves: seq<ShardMove>, j: nat, rem: nat)
    requires Pairing(over, under, moves, |over|, 0, j, rem) && j < |under| && rem > 0
    ensures Amounts(over) < Amounts(under)
  {
    UsedAtMost(under, ArrivalsOf(moves), j, rem, |moves|);
    assert over[..|over|] == over;
  }

  method PushBatch(over: seq<Load>, under: seq<Load>, moves: seq<ShardMove>, ghost i: nat, from: Load, ghost j: nat,
                   to: Load, batch: nat)
    returns (moves': seq<ShardMove>)
    requires DistinctIds(over) && DistinctIds(under) && i < |over| && j < |under|
    requires from.id == over[i].id && to.id == under[j].id && batch <= from.amount && batch <= to.amount
    requires Pairing(over, under, moves, i, from.amount, j, to.amount)
    ensures Pairing(over, under, moves', i, from.amount - batch, j, to.amount - batch)
  {
    hide Pairing, DistinctIds;
    moves' := moves;
    for t := 0 to batch
      invariant Pairing(over, under, moves', i, from.amount - t, j, to.amount - t)
    {
      var m := ShardMove(|moves'|, from.id, to.id);
      PushMove(over, under, moves', i, from.amount - t, j, to.amount - t, m);
      moves' := moves' + [m];
    }
  }

  // ------------------------------------------------------- what the pairing means

  lemma {:induction false} NotMoved(moves: seq<ShardMove>, id: ShardId)
    ensures (forall i :: 0 <= i < |moves| ==> moves[i].toShard != id) ==> Arrivals(moves, id) == 0
    ensures (forall i :: 0 <= i < |moves| ==> moves[i].fromShard != id) ==> Departures(moves, id) == 0
    decreases |moves|
  {
    if moves != [] {
      NotMoved(moves[..|moves| - 1], id);
    }
  }

  lemma UsedCount(loads: seq<Load>, count: ShardId -> nat, k: nat, rem: nat, moved: nat, j: nat)
    requires UsedUp(loads, count, k, rem, moved) && j < |loads|
    ensures count(loads[j].id) <= loads[j].amount && (k == |loads| ==> count(loads[j].id) == loads[j].amount)
  {
  }

  lemma PairingBalances(shards: Shards, ids: seq<ShardId>, ideal: nat, moves: seq<ShardMove>, i: nat, rem: nat)
    requires Increasing(ids) && forall id :: id in ids ==> id in shards
    requires Pairing(OverLoads(shards, ids, ideal), UnderLoads(shards, ids, ideal), moves, i, rem,
                     |UnderLoads(shards, ids, ideal)|, 0)
    ensures Balances(shards, ids, ideal, moves) && |moves| == Amounts(UnderLoads(shards, ids, ideal))
  {
    var over, under := OverLoads(shards, ids, ideal), UnderLoads(shards, ids, ideal);
    assert under[..|under|] == under;
    forall k | 0 <= k < |moves|
      ensures moves[k].nodeId == k
      ensures moves[k].fromShard in ids && shards[moves[k].fromShard].nodeCount > ideal
      ensures moves[k].toShard in ids && shards[moves[k].toShard].nodeCount < ideal
    {
      var x :| 0 <= x < |over| && over[x].id == moves[k].fromShard;
      var y :| 0 <= y < |under| && under[y].id == moves[k].toShard;
      LoadsExactly(shards, ids, ideal, over[x]);
      LoadsExactly(shards, ids, ideal, under[y]);
    }
    forall id | id in ids
      ensures if shards[id].nodeCount < ideal then After(shards, moves, id) == ideal
              else ideal <= After(shards, moves, id) <= shards[id].nodeCount
    {
      NotMoved(moves, id);
      if shards[id].nodeCount < ideal {
        LoadsExactly(shards, ids, ideal, Load(id, ideal - shards[id].nodeCount));
        var y :| 0 <= y < |under| && under[y] == Load(id, ideal - shards[id].nodeCount);
        UsedCount(under, ArrivalsOf(moves), |under|, 0, |moves|, y);
      } else if shards[id].nodeCount > ideal {
        LoadsExactly(shards, ids, ideal, Load(id, shards[id].nodeCount - ideal));
        var x :| 0 <= x < |over| && over[x] == Load(id, shards[id].nodeCount - ideal);
        UsedCount(over, DeparturesOf(moves), i, rem, |moves|, x);
      }
    }
  }

  // ------------------------------------------------------- consequences of a plan

  function SumArrivals(moves: seq<ShardMove>, ids: seq<ShardId>): nat {
    if ids == [] then 0 else SumArrivals(moves, ids[..|ids| - 1]) + Arrivals(moves, ids[|ids| - 1])
  }

  function SumDepartures(moves: seq<ShardMove>, ids: seq<ShardId>): nat {
    if ids == [] then 0 else SumDepartures(moves, ids[..|ids| - 1]) + Departures(moves, ids[|ids| - 1])
  }

  lemma {:induction false} SumsSnoc(moves: seq<ShardMove>, m: ShardMove, ids: seq<ShardId>)
    requires Increasing(ids)
    ensures SumArrivals(moves + [m], ids) == SumArrivals(moves, ids) + (if m.toShard in ids then 1 else 0)
    ensures SumDepartures(moves + [m], ids) == SumDepartures(moves, ids) + (if m.fromShard in ids then 1 else 0)
    decreases |ids|
  {
    if ids != [] {
      var n := |ids| - 1;
      SumsSnoc(moves, m, ids[..n]);
      CountsSnoc(moves, m, ids[n]);
      assert ids == ids[..n] + [ids[n]];
    }
  }

  lemma {:induction false} SumsBounded(moves: seq<ShardMove>, ids: seq<ShardId>)
    requires Increasing(ids)
    ensures SumArrivals(moves, ids) <= |moves| && SumDepartures(moves, ids) <= |moves|
    ensures (forall i :: 0 <= i < |moves| ==> moves[i].toShard in ids) ==> SumArrivals(moves, ids) == |moves|
    ensures (forall i :: 0 <= i < |moves| ==> moves[i].fromShard in ids) ==> SumDepartures(moves, ids) == |moves|
    decreases |moves|
  {
    if moves == [] {
      NoMoves(ids);
    } else {
      var n := |moves| - 1;
      SumsBounded(moves[..n], ids);
      SumsSnoc(moves[..n], moves[n], ids);
      assert moves == moves[..n] + [moves[n]];
    }
  }

  lemma {:induction false} NoMoves(ids: seq<ShardId>)
    ensures SumArrivals([], ids) == 0 && SumDepartures([], ids) == 0
    decreases |ids|
  {
    if ids != [] {
      NoMoves(ids[..|ids| - 1]);
    }
  }

  lemma {:induction false} TotalAfterSums(shards: Shards, moves: seq<ShardMove>, ids: seq<ShardId>)
    requires forall id :: id in ids ==> id in shards
    ensures TotalAfter(shards, moves, ids) ==
      TotalNodes(shards, ids) + SumArrivals(moves, ids) - SumDepartures(moves, ids)
    decreases |ids|
  {
    if ids != [] {
      TotalAfterSums(shards, moves, ids[..|ids| - 1]);
    }
  }

  lemma {:induction false} EachWithinTotal(shards: Shards, moves: seq<ShardMove>, ids: seq<ShardId>, ideal: nat, k: nat)
    requires k < |ids| && forall id :: id in ids ==> id in shards && ideal <= After(shards, moves, id)
    ensures |ids| * ideal + (After(shards, moves, ids[k]) - ideal) <= TotalAfter(shards, moves, ids)
    decreases |ids|
  {
    var n := |ids| - 1;
    Multiple(n, ideal);
    if k < n {
      EachWithinTotal(shards, moves, ids[..n], ideal, k);
      assert ids[n] in ids;
    } else {
      AtLeastIdeal(shards, moves, ids[..n], ideal);
    }
  }

  lemma {:induction false} AtLeastIdeal(shards: Shards, moves: seq<ShardMove>, ids: seq<ShardId>, ideal: nat)
    requires forall id :: id in ids ==> id in shards && ideal <= After(shards, moves, id)
    ensures |ids| * ideal <= TotalAfter(shards, moves, ids)
    decreases |ids|
  {
    if ids != [] {
      var n := |ids| - 1;
      AtLeastIdeal(shards, moves, ids[..n], ideal);
      Multiple(n, ideal);
      assert ids[n] in ids;
    }
  }

  lemma TotalKept(shards: Shards, ids: seq<ShardId>, ideal: nat, moves: seq<ShardMove>)
    requires Increasing(ids) && forall id :: id in ids ==> id in shards
    requires Balances(shards, ids, ideal, moves)
    ensures TotalAfter(shards, moves, ids) == TotalNodes(shards, ids)
  {
    hide After;
    SumsBounded(moves, ids);
    TotalAfterSums(shards, moves, ids);
  }

  lemma ExcessBounded(shards: Shards, ids: seq<ShardId>, ideal: nat, moves: seq<ShardMove>, id: ShardId)
    requires Increasing(ids) && forall id :: id in ids ==> id in shards
    requires Balances(shards, ids, ideal, moves) && id in ids
    ensures After(shards, moves, id) - ideal <= TotalNodes(shards, ids) - |ids| * ideal
  {
    TotalKept(shards, ids, ideal, moves);
    var k :| 0 <= k < |ids| && ids[k] == id;
    hide TotalNodes, TotalAfter, After;
    EachWithinTotal(shards, moves, ids, ideal, k);
  }

  lemma OthersUntouched(shards: Shards, ids: seq<ShardId>, ideal: nat, moves: seq<ShardMove>, id: ShardId)
    requires forall id :: id in ids ==> id in shards
    requires Balances(shards, ids, ideal, moves) && id in shards && id !in ids
    ensures After(shards, moves, id) == shards[id].nodeCount
  {
    NotMoved(moves, id);
  }

  /** A balancing plan conserves the total, so that all shards together keep `total mod n` nodes above the ideal. */
  lemma PlanConserves(shards: Shards, ids: seq<ShardId>, moves: seq<ShardMove>)
    requires Increasing(ids) && |ids| > 0 && forall id :: id in ids ==> id in shards
    requires Balances(shards, ids, TotalNodes(shards, ids) / |ids|, moves)
    ensures TotalAfter(shards, moves, ids) == TotalNodes(shards, ids)
    ensures forall id :: id in ids ==>
      After(shards, moves, id) <= TotalNodes(shards, ids) / |ids| + TotalNodes(shards, ids) % |ids|
    ensures forall id :: id in shards && id !in ids ==> After(shards, moves, id) == shards[id].nodeCount
  {
    hide *;
    var ideal, rest := TotalNodes(shards, ids) / |ids|, TotalNodes(shards, ids) % |ids|;
    DivMod(TotalNodes(shards, ids), |ids|);
    TotalKept(shards, ids, ideal, moves);
    forall id | id in ids ensures After(shards, moves, id) <= ideal + rest {
      ExcessBounded(shards, ids, ideal, moves, id);
    }
    forall id | id in shards && id !in ids ensures After(shards, moves, id) == shards[id].nodeCount {
      OthersUntouched(shards, ids, ideal, moves, id);
    }
  }

  lemma DivMod(total: nat, n: nat)
    requires n > 0
    ensures total == n * (total / n) + total % n
  {
  }

  lemma {:induction false} DeficitsArrive(shards: Shards, ids: seq<ShardId>, ideal: nat, moves: seq<ShardMove>)
    requires forall id :: id in ids ==> id in shards && ideal <= After(shards, moves, id)
    ensures Amounts(UnderLoads(shards, ids, ideal)) <= SumArrivals(moves, ids)
    decreases |ids|
  {
    if ids != [] {
      var n := |ids| - 1;
      DeficitsArrive(shards, ids[..n], ideal, moves);
      assert ids[n] in ids;
      if shards[ids[n]].nodeCount < ideal {
        AmountsSnoc(UnderLoads(shards, ids[..n], ideal), Load(ids[n], ideal - shards[ids[n]].nodeCount));
      }
    }
  }

  /** No list of moves, whatever it does, lifts every active shard to the ideal with fewer moves. */
  lemma FewestMoves(shards: Shards, ids: seq<ShardId>, ideal: nat, plan: seq<ShardMove>, other: seq<ShardMove>)
    requires Increasing(ids) && forall id :: id in ids ==> id in shards
    requires |plan| == Amounts(UnderLoads(shards, ids, ideal))
    requires forall id :: id in ids ==> ideal <= After(shards, other, id)
    ensures |plan| <= |other|
  {
    DeficitsArrive(shards, ids, ideal, other);
    SumsBounded(other, ids);
  }

  // ---------------------------------------------------------------- the shard map

  class ShardMap {
    var shards: Shards

    constructor ()
      ensures shards == map[]
    {
      shards := map[];
    }

    method AddShard(info: ShardInfo) returns (r: Result)
      modifies this
      ensures old(info.id in shards) ==> r == Err(AlreadyExists(info.id)) && shards == old(shards)
      ensures old(info.id !in shards) ==> r == Ok && shards == old(shards)[info.id := info]
    {
      if info.id in shards {
        return Err(AlreadyExists(info.id));
      }
      shards := shards[info.id := info];
      return Ok;
    }

    method RemoveShard(id: ShardId) returns (r: Result)
      modifies this
      ensures old(id !in shards) ==> r == Err(NotFound(id)) && shards == old(shards)
      ensures old(id in shards) ==> r == Ok && shards == old(shards) - {id}
    {
      if id !in shards {
        return Err(NotFound(id));
      }
      shards := shards - {id};
      return Ok;
    }

    /** The active shards in increasing order of id. */
    method ActiveShards() returns (ids: seq<ShardId>)
      ensures ActiveIds(shards, ids)
    {
      ids := [];
      var todo := set id | id in shards && IsActive(shards, id);
      while todo != {}
        invariant Increasing(ids) && forall id :: id in ids || id in todo <==> IsActive(shards, id)
        invariant forall x, y :: x in ids && y in todo ==> x < y
      {
        var least := Least(todo);
        assert forall i :: 0 <= i < |ids| ==> ids[i] in ids;
        todo := todo - {least};
        ids := ids + [least];
      }
    }

    /** A plan that lifts every active shard to the rounded-down average with the fewest moves. */
    method RebalancePlan() returns (moves: seq<ShardMove>)
      ensures forall ids :: ActiveIds(shards, ids) ==> if |ids| < 2 then moves == [] else LiftsAll(shards, ids, moves)
      ensures forall ids :: ActiveIds(shards, ids) && |ids| >= 2 ==>
        var total := TotalNodes(shards, ids);
        && TotalAfter(shards, moves, ids) == total
        && (forall id :: id in ids ==>
              total / |ids| <= After(shards, moves, id) <= total / |ids| + total % |ids|)
        && (forall id :: id in shards && id !in ids ==> After(shards, moves, id) == shards[id].nodeCount)
        && forall other: seq<ShardMove> ::
             (forall id :: id in ids ==> total / |ids| <= After(shards, other, id)) ==> |moves| <= |other|
    {
      var active := ActiveShards();
      forall ids | ActiveIds(shards, ids) ensures ids == active {
        ActiveIdsUnique(shards, ids, active);
      }
      hide ActiveIds;
      if |active| < 2 {
        return [];
      }
      moves := PlanFor(active);
      PlanIsBest(shards, active, moves);
    }

    method PlanFor(active: seq<ShardId>) returns (moves: seq<ShardMove>)
      requires ActiveIds(shards, active) && |active| >= 2
      ensures LiftsAll(shards, active, moves)
    {
      var ideal := TotalNodes(shards, active) / |active|;
      var over := OverLoads(shards, active, ideal);
      var under := UnderLoads(shards, active, ideal);
      LoadsDistinct(shards, active, ideal);
      LoadsBalance(shards, active, ideal);
      AverageBelow(TotalNodes(shards, active), |active|);
      forall l | l in over || l in under ensures l.amount > 0 {
        LoadsExactly(shards, active, ideal, l);
      }
      hide Pairing, Balances, DistinctIds, Increasing, OverLoads, UnderLoads, Amounts;
      moves := PairUp(over, under);
      ghost var i: nat, rem: nat :| Pairing(over, under, moves, i, rem, |under|, 0);
      PairingBalances(shards, active, ideal, moves, i, rem);
    }
  }

  lemma PlanIsBest(shards: Shards, ids: seq<ShardId>, moves: seq<ShardMove>)
    requires ActiveIds(shards, ids) && LiftsAll(shards, ids, moves)
    ensures var total := TotalNodes(shards, ids);
      && TotalAfter(shards, moves, ids) == total
      && (forall id :: id in ids ==> total / |ids| <= After(shards, moves, id) <= total / |ids| + total % |ids|)
      && (forall id :: id in shards && id !in ids ==> After(shards, moves, id) == shards[id].nodeCount)
      && forall other: seq<ShardMove> ::
           (forall id :: id in ids ==> total / |ids| <= After(shards, other, id)) ==> |moves| <= |other|
  {
    hide After, TotalNodes, TotalAfter, Amounts, UnderLoads;
    PlanConserves(shards, ids, moves);
    var ideal := TotalNodes(shards, ids) / |ids|;
    forall other: seq<ShardMove> | forall id :: id in ids ==> ideal <= After(shards, other, id)
      ensures |moves| <= |other|
    {
      FewestMoves(shards, ids, ideal, moves, other);
    }
  }

  lemma AverageBelow(total: nat, n: nat)
    requires n > 0
    ensures n * (total / n) <= total
  {
  }

  lemma {:induction false} LeastOf(s: set<nat>) returns (x: nat)
    requires s != {}
    ensures x in s && forall y :: y in s ==> x <= y
    decreases s
  {
    x :| x in s;
    var rest := s - {x};
    assert forall y :: y in s ==> y == x || y in rest;
    if rest != {} {
      var z := LeastOf(rest);
      x := if x <= z then x else z;
    }
  }

  method Least(s: set<nat>) returns (x: nat)
    requires s != {}
    ensures x in s && forall y :: y in s ==> x <= y
  {
    ghost var least := LeastOf(s);
    x :| x in s && forall y :: y in s ==> x <= y;
  }
}
