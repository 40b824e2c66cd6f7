/**
  An id counter shared by threads that allocate ids with an atomic fetch-and-add and
  claim chosen ids with a load followed by a compare-and-swap loop. A run interleaves
  the atomic steps of any number of threads in any order.
 */
module IdCounters {

  type Thread = nat

  /** Where a thread is: between operations, about to load the counter for a claim, or in the loop
      with the value it saw first, the value it saw last and the number of failed swaps. */
  datatype Local =
    | Idle
    | Claiming(id: nat)
    | Swapping(id: nat, first: nat, current: nat, failures: nat)

  datatype Event = Allocated(id: nat) | Claimed(id: nat)

  /** The history lists finished operations in the order in which they finished. */
  datatype State = State(counter: nat, threads: map<Thread, Local>, history: seq<Event>)

  function LocalOf(s: State, t: Thread): Local { if t in s.threads then s.threads[t] else Idle }

  ghost predicate Init(s: State) { s == State(0, map[], []) }

  ghost predicate FetchAdd(s: State, t: Thread, s': State) {
    && LocalOf(s, t).Idle?
    && s' == s.(counter := s.counter + 1, history := s.history + [Allocated(s.counter)])
  }

  ghost predicate StartClaim(s: State, t: Thread, id: nat, s': State) {
    LocalOf(s, t).Idle? && s' == s.(threads := s.threads[t := Claiming(id)])
  }

  ghost predicate Load(s: State, t: Thread, s': State) {
    && LocalOf(s, t).Claiming?
    && s' == s.(threads := s.threads[t := Swapping(LocalOf(s, t).id, s.counter, s.counter, 0)])
  }

  /** The loop ends because the value seen last is past the id. */
  ghost predicate Leave(s: State, t: Thread, s': State) {
    var l := LocalOf(s, t);
    && l.Swapping? && l.current > l.id
    && s' == s.(threads := s.threads[t := Idle], history := s.history + [Claimed(l.id)])
  }

  ghost predicate SwapSucceeds(s: State, t: Thread, s': State) {
    var l := LocalOf(s, t);
    && l.Swapping? && l.current <= l.id && s.counter == l.current
    && s' == State(l.id + 1, s.threads[t := Idle], s.history + [Claimed(l.id)])
  }

  ghost predicate SwapFails(s: State, t: Thread, s': State) {
    var l := LocalOf(s, t);
    && l.Swapping? && l.current <= l.id && s.counter != l.current
    && s' == s.(threads := s.threads[t := Swapping(l.id, l.first, s.counter, l.failures + 1)])
  }

  ghost predicate Step(s: State, s': State) {
    exists t :: StepOf(s, t, s')
  }

  ghost predicate StepOf(s: State, t: Thread, s': State) {
    || FetchAdd(s, t, s')
    || (exists id :: StartClaim(s, t, id, s'))
    || Load(s, t, s') || Leave(s, t, s') || SwapSucceeds(s, t, s') || SwapFails(s, t, s')
  }

  ghost predicate IsRun(run: seq<State>) {
    && run != [] && Init(run[0])
    && forall i :: 0 <= i < |run| - 1 ==> Step(run[i], run[i + 1])
  }

  // ------------------------------------------------------------------------- the invariant

  /** What a thread saw last is not ahead of the counter, and every failure moved it on. */
  ghost predicate LocalOk(counter: nat, l: Local) {
    l.Swapping? ==>
      && l.first <= l.current <= counter
      && l.first + l.failures <= l.current
      && (l.failures > 0 ==> l.first + l.failures <= l.id + 1)
  }

  /** Finished operations lie behind the counter, and an allocation lies ahead of all before it. */
  ghost predicate HistoryOk(counter: nat, history: seq<Event>) {
    && (forall i :: 0 <= i < |history| ==> history[i].id < counter)
    && (forall i, j :: 0 <= i < j < |history| && history[j].Allocated? ==> history[i].id < history[j].id)
  }

  ghost predicate Inv(s: State) {
    (forall t :: LocalOk(s.counter, LocalOf(s, t))) && HistoryOk(s.counter, s.history)
  }

  lemma LocalsKept(s: State, s': State, t: Thread)
    requires Inv(s) && s.counter <= s'.counter && LocalOk(s'.counter, LocalOf(s', t))
    requires forall u :: u != t ==> LocalOf(s', u) == LocalOf(s, u)
    ensures forall u :: LocalOk(s'.counter, LocalOf(s', u))
  {
    forall u ensures LocalOk(s'.counter, LocalOf(s', u)) {
      assert LocalOk(s.counter, LocalOf(s, u));
    }
  }

  lemma StepKeepsInv(s: State, t: Thread, s': State)
    requires Inv(s) && StepOf(s, t, s')
    ensures Inv(s') && s.counter <= s'.counter
    ensures s.history <= s'.history
  {
    var l := LocalOf(s, t);
    assert LocalOk(s.counter, l);
    LocalsKept(s, s', t);
  }

  lemma {:induction false} RunKeepsInv(run: seq<State>, n: nat)
    requires IsRun(run) && n < |run|
    ensures Inv(run[n])
  {
    if n > 0 {
      RunKeepsInv(run, n - 1);
      assert Step(run[n - 1], run[n - 1 + 1]);
      hide Inv, StepOf;
      var t :| StepOf(run[n - 1], t, run[n]);
      StepKeepsInv(run[n - 1], t, run[n]);
    }
  }

  // ---------------------------------------------------------------------------- every run

  /** The counter never goes back, and history is never rewritten. */
  lemma {:induction false} NeverDecreases(run: seq<State>, i: nat, j: nat)
    requires IsRun(run) && i <= j < |run|
    ensures run[i].counter <= run[j].counter && run[i].history <= run[j].history
    decreases j
  {
    if i < j {
      NeverDecreases(run, i, j - 1);
      RunKeepsInv(run, j - 1);
      assert Step(run[j - 1], run[j - 1 + 1]);
      hide Inv, StepOf;
      var t :| StepOf(run[j - 1], t, run[j]);
      StepKeepsInv(run[j - 1], t, run[j]);
    }
  }

  /** No two allocations get the same id; later ones get larger ids. */
  lemma AllocationsAreDistinct(run: seq<State>, n: nat, i: nat, j: nat)
    requires IsRun(run) && n < |run| && i < j < |run[n].history|
    requires run[n].history[i].Allocated? && run[n].history[j].Allocated?
    ensures run[n].history[i].id < run[n].history[j].id
  {
    RunKeepsInv(run, n);
  }

  /** No allocation that finishes after a claim of an id gets that id. */
  lemma NoneAfterClaim(run: seq<State>, n: nat, i: nat, j: nat)
    requires IsRun(run) && n < |run| && i < j < |run[n].history|
    requires run[n].history[i].Claimed? && run[n].history[j].Allocated?
    ensures run[n].history[i].id < run[n].history[j].id
  {
    RunKeepsInv(run, n);
  }

  /** However the others interfere, a claim fails to swap at most id + 1 minus the value it saw first
      many times, and never when that value was past the id. */
  lemma RetriesAreBounded(run: seq<State>, n: nat, t: Thread)
    requires IsRun(run) && n < |run| && LocalOf(run[n], t).Swapping?
    ensures var l := LocalOf(run[n], t);
      if l.first <= l.id then l.failures <= l.id + 1 - l.first else l.failures == 0
  {
    RunKeepsInv(run, n);
    assert LocalOk(run[n].counter, LocalOf(run[n], t));
  }

  /** A claim that has used up that bound finds the counter past its id and leaves. */
  lemma BoundReachedMeansDone(run: seq<State>, n: nat, t: Thread)
    requires IsRun(run) && n < |run| && LocalOf(run[n], t).Swapping?
    requires LocalOf(run[n], t).failures + LocalOf(run[n], t).first == LocalOf(run[n], t).id + 1
    ensures LocalOf(run[n], t).current > LocalOf(run[n], t).id
  {
    RunKeepsInv(run, n);
    assert LocalOk(run[n].counter, LocalOf(run[n], t));
  }

  /** The order matters: an id handed out first can still be claimed later. */
  lemma ClaimAfterAllocationMayCollide() returns (run: seq<State>)
    ensures IsRun(run)
    ensures run[|run| - 1].history == [Allocated(0), Claimed(0)]
  {
    var s0 := State(0, map[], []);
    var s1 := State(1, map[], [Allocated(0)]);
    var s2 := s1.(threads := map[0 := Claiming(0)]);
    var s3 := s1.(threads := map[0 := Swapping(0, 1, 1, 0)]);
    var s4 := State(1, map[0 := Idle], [Allocated(0), Claimed(0)]);
    assert s1.history == s0.history + [Allocated(0)];
    assert FetchAdd(s0, 0, s1) && StepOf(s0, 0, s1);
    assert StartClaim(s1, 0, 0, s2) && StepOf(s1, 0, s2);
    assert s3.threads == s2.threads[0 := Swapping(0, 1, 1, 0)];
    assert Load(s2, 0, s3) && StepOf(s2, 0, s3);
    assert s4.threads == s3.threads[0 := Idle];
    assert s4.history == s3.history + [Claimed(0)];
    assert Leave(s3, 0, s4) && StepOf(s3, 0, s4);
    run := [s0, s1, s2, s3, s4];
    forall i | 0 <= i < |run| - 1 ensures Step(run[i], run[i + 1]) {
      assert i == 0 || i == 1 || i == 2 || i == 3;
    }
  }
}
