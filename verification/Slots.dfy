/** Arrays of reusable slots and their free lists. */
module Slots {
  import opened Collections

  /** What the occupied slots hold. */
  function Live<T>(slots: seq<Option<T>>): map<nat, T> {
    map i | 0 <= i < |slots| && slots[i].Some? :: slots[i].value
  }

  /** The free list names empty slots, each at most once. */
  ghost predicate FreeSome<T>(free: seq<nat>, slots: seq<Option<T>>) {
    NoDup(free) && forall i :: i in free ==> i < |slots| && slots[i].None?
  }

  /** The free list names all the empty slots, each once. */
  ghost predicate FreeAll<T>(free: seq<nat>, slots: seq<Option<T>>) {
    FreeSome(free, slots) && forall i :: 0 <= i < |slots| && slots[i].None? ==> i in free
  }

  function Resized<T>(slots: seq<Option<T>>, n: nat): (r: seq<Option<T>>)
    ensures |r| == if n <= |slots| then |slots| else n
  {
    if n <= |slots| then slots else slots + seq(n - |slots|, _ => None)
  }

  function Range(a: nat, b: nat): seq<nat> {
    if a < b then seq(b - a, i requires 0 <= i < b - a => a + i) else []
  }

  lemma RangeMeans(a: nat, b: nat)
    ensures NoDup(Range(a, b)) && forall i :: i in Range(a, b) <==> a <= i < b
  {
    forall i: nat | a <= i < b ensures i in Range(a, b) {
      assert Range(a, b)[i - a] == i;
    }
  }

  // ----------------------------------------------------------------- what is live

  lemma LivePut<T>(slots: seq<Option<T>>, i: nat, x: T)
    requires i < |slots|
    ensures Live(slots[i := Some(x)]) == Live(slots)[i := x]
  {
  }

  lemma LiveTake<T>(slots: seq<Option<T>>, i: nat)
    requires i < |slots|
    ensures Live(slots[i := None]) == Live(slots) - {i}
  {
  }

  lemma LivePush<T>(slots: seq<Option<T>>, x: T)
    ensures |slots| !in Live(slots) && Live(slots + [Some(x)]) == Live(slots)[|slots| := x]
  {
  }

  lemma LiveResized<T>(slots: seq<Option<T>>, n: nat)
    ensures Live(Resized(slots, n)) == Live(slots)
  {
  }

  lemma LiveAt<T>(slots: seq<Option<T>>, i: nat)
    ensures i in Live(slots) <==> i < |slots| && slots[i].Some?
    ensures i in Live(slots) ==> Live(slots)[i] == slots[i].value
  {
  }

  lemma CountPut<T>(m: map<nat, T>, i: nat, x: T)
    ensures |m[i := x]| == if i in m then |m| else |m| + 1
  {
    if i in m {
      assert m[i := x].Keys == m.Keys;
    } else {
      assert m[i := x].Keys == m.Keys + {i};
    }
  }

  lemma CountTake<T>(m: map<nat, T>, i: nat)
    requires i in m
    ensures |m - {i}| == |m| - 1
  {
    assert (m - {i}).Keys == m.Keys - {i};
  }

  // ------------------------------------------------------------------- free lists

  /** Popping the free list gives an empty slot, and what is left fits the slots once it is filled. */
  lemma FreePop<T>(free: seq<nat>, slots: seq<Option<T>>, x: T)
    requires FreeSome(free, slots) && free != []
    ensures var i := free[|free| - 1];
      && i < |slots| && slots[i].None?
      && FreeSome(free[..|free| - 1], slots[i := Some(x)])
      && (FreeAll(free, slots) ==> FreeAll(free[..|free| - 1], slots[i := Some(x)]))
  {
    var n := |free| - 1;
    var i := free[n];
    assert i in free && free == free[..n] + [i];
    forall k | k in free[..n] ensures k in free && k != i {
      var j :| 0 <= j < n && free[..n][j] == k;
      assert free[j] == k;
    }
  }

  lemma FreePush<T>(free: seq<nat>, slots: seq<Option<T>>, i: nat)
    requires FreeSome(free, slots) && i < |slots| && slots[i].Some?
    ensures FreeSome(free + [i], slots[i := None])
    ensures FreeAll(free, slots) ==> FreeAll(free + [i], slots[i := None])
  {
    assert i !in free;
    assert forall k :: 0 <= k < |free| ==> free[k] in free;
  }

  lemma FreeAppend<T>(free: seq<nat>, slots: seq<Option<T>>, x: T)
    requires FreeSome(free, slots)
    ensures FreeSome(free, slots + [Some(x)])
    ensures FreeAll(free, slots) ==> FreeAll(free, slots + [Some(x)])
  {
  }

  lemma FreeResized<T>(free: seq<nat>, slots: seq<Option<T>>, n: nat)
    requires FreeSome(free, slots)
    ensures FreeSome(free, Resized(slots, n))
  {
  }

  lemma FreeOverwrite<T>(free: seq<nat>, slots: seq<Option<T>>, i: nat, x: T)
    requires FreeSome(free, slots) && i < |slots| && slots[i].Some?
    ensures FreeSome(free, slots[i := Some(x)])
    ensures FreeAll(free, slots) ==> FreeAll(free, slots[i := Some(x)])
  {
  }

  /** A slot taken by its number leaves the free list; slots skipped over may stay unlisted. */
  lemma FreeClaim<T>(free: seq<nat>, slots: seq<Option<T>>, i: nat, x: T)
    requires FreeSome(free, slots) && i !in Live(slots)
    ensures FreeSome(Without(free, i), Resized(slots, i + 1)[i := Some(x)])
  {
    WithoutMeans(free, i);
  }

  /** When the slots skipped over are listed, the list stays complete. */
  lemma FreeClaimAll<T>(free: seq<nat>, slots: seq<Option<T>>, i: nat, x: T)
    requires FreeAll(free, slots) && i !in Live(slots)
    ensures FreeAll(Without(free + Range(|slots|, i), i), Resized(slots, i + 1)[i := Some(x)])
  {
    var all := free + Range(|slots|, i);
    RangeMeans(|slots|, i);
    NoDupConcat(free, Range(|slots|, i));
    WithoutMeans(all, i);
    var later := Resized(slots, i + 1)[i := Some(x)];
    forall k: nat ensures k in Without(all, i) <==> k < |later| && later[k].None? {
      assert k in Without(all, i) <==> k in all && k != i;
      assert k in all <==> k in free || k in Range(|slots|, i);
      if k < |slots| && k != i {
        assert later[k] == slots[k];
      } else if |slots| <= k < i {
        assert later[k] == None;
      }
    }
  }
}
