/** Finite sums of reals over sets of ids. */
module Sums {

  ghost function Sum(s: set<nat>, f: nat -> real): real {
    if s == {} then 0.0 else var x :| x in s; f(x) + Sum(s - {x}, f)
  }

  lemma {:induction false} SumPick(s: set<nat>, f: nat -> real, x: nat)
    requires x in s
    ensures Sum(s, f) == f(x) + Sum(s - {x}, f)
    decreases s
  {
    var y :| y in s && Sum(s, f) == f(y) + Sum(s - {y}, f);
    if y != x {
      SumPick(s - {y}, f, x);
      SumPick(s - {x}, f, y);
      assert s - {y} - {x} == s - {x} - {y};
    }
  }

  lemma SumInsert(s: set<nat>, f: nat -> real, x: nat)
    requires x !in s
    ensures Sum(s + {x}, f) == f(x) + Sum(s, f)
  {
    SumPick(s + {x}, f, x);
    assert s + {x} - {x} == s;
  }

  lemma {:induction false} SumCong(s: set<nat>, f: nat -> real, h: nat -> real)
    requires forall x :: x in s ==> f(x) == h(x)
    ensures Sum(s, f) == Sum(s, h)
    decreases s
  {
    if s != {} {
      var x :| x in s;
      SumPick(s, f, x);
      SumPick(s, h, x);
      SumCong(s - {x}, f, h);
    }
  }

  lemma {:induction false} SumLe(s: set<nat>, f: nat -> real, h: nat -> real)
    requires forall x :: x in s ==> f(x) <= h(x)
    ensures Sum(s, f) <= Sum(s, h)
    decreases s
  {
    if s != {} {
      var x :| x in s;
      SumPick(s, f, x);
      SumPick(s, h, x);
      SumLe(s - {x}, f, h);
    }
  }

  /** h = f + k pointwise. */
  lemma {:induction false} SumAdd(s: set<nat>, f: nat -> real, k: nat -> real, h: nat -> real)
    requires forall x :: x in s ==> h(x) == f(x) + k(x)
    ensures Sum(s, h) == Sum(s, f) + Sum(s, k)
    decreases s
  {
    if s != {} {
      var x :| x in s;
      SumPick(s, f, x);
      SumPick(s, k, x);
      SumPick(s, h, x);
      SumAdd(s - {x}, f, k, h);
    }
  }

  function Times(c: real, x: real): real { c * x }

  function Ratio(x: real, y: real): real { if y == 0.0 then 0.0 else x / y }

  lemma Distribute(c: real, x: real, y: real)
    ensures Times(c, x + y) == Times(c, x) + Times(c, y)
  {
  }

  /** h = c * f pointwise. */
  lemma {:induction false} SumScale(s: set<nat>, c: real, f: nat -> real, h: nat -> real)
    requires forall x :: x in s ==> h(x) == Times(c, f(x))
    ensures Sum(s, h) == Times(c, Sum(s, f))
    decreases s
  {
    if s != {} {
      hide Times, Sum;
      var x :| x in s;
      SumPick(s, f, x);
      SumPick(s, h, x);
      SumScale(s - {x}, c, f, h);
      Distribute(c, f(x), Sum(s - {x}, f));
    }
  }

  lemma {:induction false} SumZero(s: set<nat>, f: nat -> real)
    requires forall x :: x in s ==> f(x) == 0.0
    ensures Sum(s, f) == 0.0
    decreases s
  {
    if s != {} {
      var x :| x in s;
      SumPick(s, f, x);
      SumZero(s - {x}, f);
    }
  }

  lemma {:induction false} SumConst(s: set<nat>, f: nat -> real, c: real)
    requires forall x :: x in s ==> f(x) == c
    ensures Sum(s, f) == Times(c, |s| as real)
    decreases s
  {
    if s != {} {
      var x :| x in s;
      SumPick(s, f, x);
      SumConst(s - {x}, f, c);
      assert |s - {x}| == |s| - 1;
      assert c == Times(c, 1.0);
      hide Sum, Times;
      Distribute(c, 1.0, (|s| - 1) as real);
    }
  }

  lemma {:induction false} SumUnion(a: set<nat>, b: set<nat>, f: nat -> real)
    requires a !! b
    ensures Sum(a + b, f) == Sum(a, f) + Sum(b, f)
    decreases b
  {
    if b == {} {
      assert a + b == a;
    } else {
      var x :| x in b;
      SumUnion(a, b - {x}, f);
      SumPick(b, f, x);
      SumPick(a + b, f, x);
      assert a + b - {x} == a + (b - {x});
    }
  }

  /** Terms that vanish outside `a` may be left out. */
  lemma SumSupport(a: set<nat>, s: set<nat>, f: nat -> real)
    requires a <= s && forall x :: x in s - a ==> f(x) == 0.0
    ensures Sum(s, f) == Sum(a, f)
  {
    SumUnion(a, s - a, f);
    SumZero(s - a, f);
    assert a + (s - a) == s;
  }

  function Fibre(s: set<nat>, key: nat -> nat, v: nat): set<nat> {
    set x | x in s && key(x) == v
  }

  /** Grouping the terms by a key: inner(v) is the sum over the terms with key v. */
  lemma {:induction false} SumFibre(s: set<nat>, keys: set<nat>, key: nat -> nat, f: nat -> real, inner: nat -> real)
    requires forall x :: x in s ==> key(x) in keys
    requires forall v :: v in keys ==> inner(v) == Sum(Fibre(s, key, v), f)
    ensures Sum(s, f) == Sum(keys, inner)
    decreases keys
  {
    if keys == {} {
      assert s == {};
    } else {
      var v :| v in keys;
      var own := Fibre(s, key, v);
      var rest := s - own;
      forall u | u in keys - {v} ensures inner(u) == Sum(Fibre(rest, key, u), f) {
        assert Fibre(rest, key, u) == Fibre(s, key, u);
      }
      SumFibre(rest, keys - {v}, key, f, inner);
      SumPick(keys, inner, v);
      SumUnion(own, rest, f);
      assert own + rest == s;
    }
  }

  function Row(f: (nat, nat) -> real, x: nat): nat -> real {
    (y: nat) => f(x, y)
  }

  function Column(f: (nat, nat) -> real, y: nat): nat -> real {
    (x: nat) => f(x, y)
  }

  /** Exchanging two finite sums: rows(x) sums row x over b, columns(y) sums column y over a. */
  lemma {:induction false} SumSwap(a: set<nat>, b: set<nat>, f: (nat, nat) -> real, rows: nat -> real,
                                   columns: nat -> real)
    requires forall x :: x in a ==> rows(x) == Sum(b, Row(f, x))
    requires forall y :: y in b ==> columns(y) == Sum(a, Column(f, y))
    ensures Sum(a, rows) == Sum(b, columns)
    decreases a
  {
    if a == {} {
      SumZero(b, columns);
    } else {
      var x :| x in a;
      var others: nat -> real := (y: nat) => Sum(a - {x}, Column(f, y));
      SumSwap(a - {x}, b, f, rows, others);
      SumPick(a, rows, x);
      forall y | y in b ensures columns(y) == Row(f, x)(y) + others(y) {
        SumPick(a, Column(f, y), x);
      }
      SumAdd(b, Row(f, x), others, columns);
    }
  }

  /** f maps A one to one onto B. */
  ghost predicate Maps(f: map<nat, nat>, A: set<nat>, B: set<nat>) {
    && A <= f.Keys
    && (forall x :: x in A ==> f[x] in B)
    && (forall y :: y in B ==> exists x :: x in A && f[x] == y)
    && (forall x, y :: x in A && y in A && f[x] == f[y] ==> x == y)
  }

  lemma MapsRest(f: map<nat, nat>, A: set<nat>, B: set<nat>, a: nat)
    requires Maps(f, A, B) && a in A
    ensures f[a] in B && Maps(f, A - {a}, B - {f[a]})
  {
    forall y | y in B - {f[a]} ensures exists x :: x in A - {a} && f[x] == y {
      var x :| x in A && f[x] == y;
      assert x in A - {a};
    }
  }

  /** A sum does not depend on the names of its terms. */
  lemma {:induction false} SumReindex(A: set<nat>, B: set<nat>, f: map<nat, nat>, p: nat -> real, q: nat -> real)
    requires Maps(f, A, B) && forall x :: x in A ==> p(x) == q(f[x])
    ensures Sum(A, p) == Sum(B, q) && |A| == |B|
    decreases A
  {
    if A == {} {
      assert B == {};
    } else {
      var a :| a in A;
      MapsRest(f, A, B, a);
      SumPick(A, p, a);
      SumPick(B, q, f[a]);
      hide Sum;
      SumReindex(A - {a}, B - {f[a]}, f, p, q);
    }
  }

  /** Terms of at most c add up to at most c times their number, and reach that only when all of them are c. */
  lemma {:induction false} SumAtMost(s: set<nat>, f: nat -> real, c: real)
    requires forall x :: x in s ==> 0.0 <= f(x) <= c
    ensures 0.0 <= Sum(s, f) <= Times(c, |s| as real)
    ensures Sum(s, f) == Times(c, |s| as real) <==> forall x :: x in s ==> f(x) == c
    decreases s
  {
    if s != {} {
      var x :| x in s;
      SumPick(s, f, x);
      SumAtMost(s - {x}, f, c);
      assert |s| == |s - {x}| + 1;
      Distribute(c, |s - {x}| as real, 1.0);
      hide Sum, Times;
      TimesUnit(c);
      assert forall y :: y in s <==> y == x || y in s - {x};
    }
  }

  lemma TimesUnit(c: real)
    ensures Times(c, 1.0) == c && Times(c, 0.0) == 0.0
  {
  }
}
