/** Small facts about options and sequences that the other modules share. */
module Collections {

  datatype Option<+T> = None | Some(value: T)

  function Elems<T(==)>(s: seq<T>): set<T> {
    set x | x in s
  }

  ghost predicate NoDup<T>(s: seq<T>) {
    forall i, j :: 0 <= i < j < |s| ==> s[i] != s[j]
  }

  lemma {:induction false} NoDupCardinality<T>(s: seq<T>)
    requires NoDup(s)
    ensures |Elems(s)| == |s|
  {
    if s != [] {
      var n := |s| - 1;
      NoDupCardinality(s[..n]);
      assert Elems(s) == Elems(s[..n]) + {s[n]};
    }
  }

  function Reversed<T>(s: seq<T>): (r: seq<T>)
    ensures |r| == |s|
  {
    if s == [] then [] else [s[|s| - 1]] + Reversed(s[..|s| - 1])
  }

  lemma ReversedSnoc<T>(s: seq<T>, x: T)
    ensures Reversed(s + [x]) == [x] + Reversed(s)
  {
    assert (s + [x])[..|s|] == s;
  }

  function Take<T>(s: seq<T>, c: nat): seq<T> { if c < |s| then s[..c] else s }

  /** The sequence with every occurrence of x left out. */
  function Without<T(==)>(s: seq<T>, x: T): seq<T> {
    if s == [] then [] else if s[0] == x then Without(s[1..], x) else [s[0]] + Without(s[1..], x)
  }

  lemma {:induction false} WithoutMeans<T>(s: seq<T>, x: T)
    requires NoDup(s)
    ensures NoDup(Without(s, x)) && |Without(s, x)| <= |s| && x !in Without(s, x)
    ensures forall y :: y in Without(s, x) <==> y in s && y != x
    ensures forall i :: 0 <= i < |Without(s, x)| ==> Without(s, x)[i] in s
    decreases |s|
  {
    if s != [] {
      WithoutMeans(s[1..], x);
      var w := Without(s[1..], x);
      assert s == [s[0]] + s[1..];
      assert forall i :: 0 <= i < |w| ==> w[i] in s[1..];
      assert s[0] !in s[1..];
    }
  }

  /** Dropping x leaves no x, and everything else as often as before. */
  lemma {:induction false} WithoutAll<T>(s: seq<T>, x: T)
    ensures multiset(Without(s, x)) == multiset(s)[x := 0] && x !in Without(s, x)
    decreases |s|
  {
    if s != [] {
      WithoutAll(s[1..], x);
      assert s == [s[0]] + s[1..];
    }
  }

  lemma {:induction false} WithoutJoin<T>(a: seq<T>, b: seq<T>, x: T)
    ensures Without(a + b, x) == Without(a, x) + Without(b, x)
    decreases |a|
  {
    if a == [] {
      assert a + b == b;
    } else {
      assert (a + b)[1..] == a[1..] + b;
      WithoutJoin(a[1..], b, x);
    }
  }

  lemma {:induction false} WithoutAbsent<T>(s: seq<T>, x: T)
    requires x !in s
    ensures Without(s, x) == s
    decreases |s|
  {
    if s != [] {
      WithoutAbsent(s[1..], x);
    }
  }

  lemma {:induction false} ShorterWithout<T>(s: seq<T>, x: T)
    requires NoDup(s) && x in s
    ensures |Without(s, x)| == |s| - 1
    decreases |s|
  {
    if s[0] == x {
      WithoutAbsent(s[1..], x);
    } else {
      ShorterWithout(s[1..], x);
    }
  }

  lemma {:induction false} WithoutLast<T>(s: seq<T>)
    requires NoDup(s) && s != []
    ensures Without(s, s[|s| - 1]) == s[..|s| - 1]
    decreases |s|
  {
    if |s| > 1 {
      WithoutLast(s[1..]);
      assert s[..|s| - 1] == [s[0]] + s[1..][..|s| - 2];
    }
  }

  lemma NoDupConcat<T>(a: seq<T>, b: seq<T>)
    requires NoDup(a) && NoDup(b) && forall x :: x in a ==> x !in b
    ensures NoDup(a + b)
  {
    var c := a + b;
    forall i, j | 0 <= i < j < |c| ensures c[i] != c[j] {
      if i < |a| <= j {
        assert c[i] in a && c[j] in b;
      }
    }
  }
}
