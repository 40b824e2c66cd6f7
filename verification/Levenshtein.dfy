/** Edit distance by the two-row dynamic program, and what it measures. */
module Levenshtein {

  function Min(x: nat, y: nat): nat { if x <= y then x else y }

  function Cost(x: char, y: char): nat { if x == y then 0 else 1 }

  function Init(s: string): string
    requires s != []
  {
    s[..|s| - 1]
  }

  function Last(s: string): char
    requires s != []
  {
    s[|s| - 1]
  }

  /** The edit distance, by its recurrence on the last characters. */
  ghost function Distance(a: string, b: string): nat
    decreases |a| + |b|
  {
    if a == [] then |b|
    else if b == [] then |a|
    else
      Min(Min(Distance(Init(a), b) + 1, Distance(a, Init(b)) + 1), Distance(Init(a), Init(b)) + Cost(Last(a), Last(b)))
  }

  // -------------------------------------------------------------- the algorithm

  lemma {:induction false} DistanceStep(a: string, b: string)
    requires a != [] && b != []
    ensures Distance(a, b) ==
            Min(Min(Distance(Init(a), b) + 1, Distance(a, Init(b)) + 1),
                Distance(Init(a), Init(b)) + Cost(Last(a), Last(b)))
  {
  }

  lemma {:induction false} DistanceToEmpty(a: string)
    ensures Distance(a, []) == |a| && Distance([], a) == |a|
  {
  }

  lemma {:induction false} PrefixStep(a: string, b: string, i: nat, j: nat)
    requires 1 <= i <= |a| && 1 <= j <= |b|
    ensures Distance(a[..i], b[..j]) ==
            Min(Min(Distance(a[..i - 1], b[..j]) + 1, Distance(a[..i], b[..j - 1]) + 1),
                Distance(a[..i - 1], b[..j - 1]) + Cost(a[i - 1], b[j - 1]))
  {
    hide Distance, Min;
    assert Init(a[..i]) == a[..i - 1] && Init(b[..j]) == b[..j - 1];
    DistanceStep(a[..i], b[..j]);
  }

  /** row[j] is the distance from the first i characters of a to the first j of b, for j below `upTo`. */
  ghost predicate RowOf(a: string, b: string, i: nat, row: array<nat>, upTo: nat)
    reads row
  {
    && i <= |a| && row.Length == |b| + 1 && upTo <= row.Length
    && forall j :: 0 <= j < upTo ==> row[j] == Distance(a[..i], b[..j])
  }

  method FillRow(a: string, b: string, i: nat, prev: array<nat>, curr: array<nat>)
    requires 1 <= i <= |a| && prev != curr && curr.Length == |b| + 1
    requires RowOf(a, b, i - 1, prev, |b| + 1)
    modifies curr
    ensures RowOf(a, b, i, curr, |b| + 1)
  {
    hide Distance, Min;
    var n := |b|;
    DistanceToEmpty(a[..i]);
    assert b[..0] == [];
    curr[0] := i;
    for j := 1 to n + 1
      invariant RowOf(a, b, i, curr, j) && RowOf(a, b, i - 1, prev, n + 1)
    {
      var cost := if a[i - 1] == b[j - 1] then 0 else 1;
      PrefixStep(a, b, i, j);
      curr[j] := Min(Min(prev[j] + 1, curr[j - 1] + 1), prev[j - 1] + cost);
    }
  }

  /** The rows are as long as the shorter string: a longer second argument is swapped to the front first. */
  method LevenshteinDistance(a: string, b: string) returns (r: nat)
    ensures r == Distance(a, b)
    decreases if |a| < |b| then 1 else 0
  {
    hide Distance;
    var m, n := |a|, |b|;
    if m < n {
      Symmetric(a, b);
      r := LevenshteinDistance(b, a);
      return;
    }
    var prev := new nat[n + 1](j => j);
    var curr := new nat[n + 1](j => 0);
    assert a[..0] == [];
    forall j | 0 <= j <= n ensures prev[j] == Distance(a[..0], b[..j]) {
      DistanceToEmpty(b[..j]);
    }
    for i := 1 to m + 1
      invariant prev != curr && fresh(prev) && fresh(curr) && curr.Length == n + 1
      invariant RowOf(a, b, i - 1, prev, n + 1)
    {
      FillRow(a, b, i, prev, curr);
      prev, curr := curr, prev;
    }
    assert a[..m] == a && b[..n] == b;
    r := prev[n];
  }

  // ---------------------------------------------------------------- it is a metric

  lemma {:induction false} Symmetric(a: string, b: string)
    ensures Distance(a, b) == Distance(b, a)
    decreases |a| + |b|
  {
    if a != [] && b != [] {
      Symmetric(Init(a), b);
      Symmetric(a, Init(b));
      Symmetric(Init(a), Init(b));
    }
  }

  lemma {:induction false} ZeroIffEqual(a: string, b: string)
    ensures Distance(a, b) == 0 <==> a == b
    decreases |a| + |b|
  {
    if a != [] && b != [] {
      ZeroIffEqual(Init(a), Init(b));
      assert a == Init(a) + [Last(a)] && b == Init(b) + [Last(b)];
    }
  }

  /** The distance is at least the difference of the lengths and at most their sum. */
  lemma {:induction false} LengthBounds(a: string, b: string)
    ensures |b| - |a| <= Distance(a, b) && |a| - |b| <= Distance(a, b) <= |a| + |b|
    decreases |a| + |b|
  {
    if a != [] && b != [] {
      LengthBounds(Init(a), b);
      LengthBounds(a, Init(b));
      LengthBounds(Init(a), Init(b));
    }
  }

  lemma {:induction false} Triangle(a: string, b: string, c: string)
    ensures Distance(a, c) <= Distance(a, b) + Distance(b, c)
    decreases |a| + |b| + |c|
  {
    LengthBounds(a, c);
    LengthBounds(a, b);
    LengthBounds(b, c);
    if a != [] && b != [] && c != [] {
      if Distance(a, b) == Distance(Init(a), b) + 1 {
        Triangle(Init(a), b, c);
      } else if Distance(b, c) == Distance(b, Init(c)) + 1 {
        Triangle(a, b, Init(c));
      } else if Distance(a, b) == Distance(a, Init(b)) + 1 {
        if Distance(b, c) == Distance(Init(b), c) + 1 {
          Triangle(a, Init(b), c);
        } else {
          Triangle(a, Init(b), Init(c));
        }
      } else if Distance(b, c) == Distance(Init(b), c) + 1 {
        Triangle(Init(a), Init(b), c);
      } else {
        Triangle(Init(a), Init(b), Init(c));
      }
    }
  }

  // -------------------------------------------- it is the shortest edit script

  datatype Edit = Insert(at: nat, c: char) | Delete(at: nat) | Replace(at: nat, c: char)

  predicate Applicable(e: Edit, s: string) {
    match e
    case Insert(i, _) => i <= |s|
    case Delete(i) => i < |s|
    case Replace(i, _) => i < |s|
  }

  function Apply(e: Edit, s: string): string
    requires Applicable(e, s)
  {
    match e
    case Insert(i, c) => s[..i] + [c] + s[i..]
    case Delete(i) => s[..i] + s[i + 1..]
    case Replace(i, c) => s[..i] + [c] + s[i + 1..]
  }

  /** The edits, applied one after the other, turn a into b. */
  ghost predicate Turns(script: seq<Edit>, a: string, b: string) {
    if script == [] then a == b
    else Applicable(script[0], a) && Turns(script[1..], Apply(script[0], a), b)
  }

  lemma {:induction false} CommonSuffix(p: string, q: string, s: string)
    ensures Distance(p + s, q + s) <= Distance(p, q)
    decreases |s|
  {
    if s == [] {
      assert p + s == p && q + s == q;
    } else {
      CommonSuffix(p, q, Init(s));
      assert Init(p + s) == p + Init(s) && Init(q + s) == q + Init(s);
      assert Last(p + s) == Last(q + s);
    }
  }

  lemma {:induction false} OneMore(p: string, c: char)
    ensures Distance(p, p + [c]) <= 1
  {
    ZeroIffEqual(p, p);
    if p != [] {
      assert Init(p + [c]) == p;
    }
  }

  lemma {:induction false} OneChanged(p: string, x: char, c: char)
    ensures Distance(p + [x], p + [c]) <= 1
  {
    ZeroIffEqual(p, p);
    assert Init(p + [x]) == p && Init(p + [c]) == p;
  }

  lemma {:induction false} OneEditIsOne(e: Edit, s: string)
    requires Applicable(e, s)
    ensures Distance(s, Apply(e, s)) <= 1
  {
    hide Distance;
    match e
    case Insert(i, c) =>
      OneMore(s[..i], c);
      CommonSuffix(s[..i], s[..i] + [c], s[i..]);
      assert s[..i] + s[i..] == s;
    case Delete(i) =>
      OneMore(s[..i], s[i]);
      Symmetric(s[..i], s[..i] + [s[i]]);
      CommonSuffix(s[..i] + [s[i]], s[..i], s[i + 1..]);
      assert s[..i] + [s[i]] + s[i + 1..] == s;
    case Replace(i, c) =>
      OneChanged(s[..i], s[i], c);
      CommonSuffix(s[..i] + [s[i]], s[..i] + [c], s[i + 1..]);
      assert s[..i] + [s[i]] + s[i + 1..] == s;
  }

  /** No script is shorter than the distance. */
  lemma {:induction false} NoShorterScript(script: seq<Edit>, a: string, b: string)
    requires Turns(script, a, b)
    ensures Distance(a, b) <= |script|
    decreases |script|
  {
    if script == [] {
      ZeroIffEqual(a, b);
    } else {
      var next := Apply(script[0], a);
      OneEditIsOne(script[0], a);
      NoShorterScript(script[1..], next, b);
      Triangle(a, next, b);
    }
  }

  lemma {:induction false} TurnsThen(script: seq<Edit>, a: string, b: string, e: Edit)
    requires Turns(script, a, b) && Applicable(e, b)
    ensures Turns(script + [e], a, Apply(e, b))
    decreases |script|
  {
    if script == [] {
      assert (script + [e])[1..] == [];
    } else {
      TurnsThen(script[1..], Apply(script[0], a), b, e);
      assert (script + [e])[1..] == script[1..] + [e];
    }
  }

  lemma EditWithTail(e: Edit, s: string, c: char)
    requires Applicable(e, s)
    ensures Applicable(e, s + [c]) && Apply(e, s + [c]) == Apply(e, s) + [c]
  {
    match e
    case Insert(i, x) => assert (s + [c])[i..] == s[i..] + [c];
    case Delete(i) => assert (s + [c])[i + 1..] == s[i + 1..] + [c];
    case Replace(i, x) => assert (s + [c])[i + 1..] == s[i + 1..] + [c];
  }

  /** A script ignores characters behind the text it edits. */
  lemma {:induction false} TurnsWithTail(script: seq<Edit>, a: string, b: string, c: char)
    requires Turns(script, a, b)
    ensures Turns(script, a + [c], b + [c])
    decreases |script|
  {
    hide Apply, Applicable;
    if script != [] {
      TurnsWithTail(script[1..], Apply(script[0], a), b, c);
      EditWithTail(script[0], a, c);
    }
  }

  lemma {:induction false} DeleteAll(a: string) returns (script: seq<Edit>)
    ensures Turns(script, a, []) && |script| == |a|
    decreases |a|
  {
    if a == [] {
      script := [];
    } else {
      var rest := DeleteAll(a[1..]);
      script := [Delete(0)] + rest;
      assert Apply(Delete(0), a) == a[1..];
    }
  }

  lemma {:induction false} InsertAll(b: string) returns (script: seq<Edit>)
    ensures Turns(script, [], b) && |script| == |b|
    decreases |b|
  {
    if b == [] {
      script := [];
    } else {
      var rest := InsertAll(Init(b));
      var e := Insert(|b| - 1, Last(b));
      assert Apply(e, Init(b)) == b;
      hide Apply, Turns;
      TurnsThen(rest, [], Init(b), e);
      script := rest + [e];
    }
  }

  lemma EditsAtEnd(s: string, x: char, y: char)
    ensures Applicable(Delete(|s|), s + [x]) && Apply(Delete(|s|), s + [x]) == s
    ensures Applicable(Insert(|s|, y), s) && Apply(Insert(|s|, y), s) == s + [y]
    ensures Applicable(Replace(|s|, y), s + [x]) && Apply(Replace(|s|, y), s + [x]) == s + [y]
  {
  }

  lemma DistanceCases(a: string, b: string)
    requires a != [] && b != []
    ensures a == Init(a) + [Last(a)] && b == Init(b) + [Last(b)]
    ensures || Distance(a, b) == Distance(Init(a), b) + 1
            || Distance(a, b) == Distance(a, Init(b)) + 1
            || Distance(a, b) == Distance(Init(a), Init(b)) + (if Last(a) == Last(b) then 0 else 1)
  {
  }

  /** And some script attains it. */
  lemma {:induction false} ShortestScript(a: string, b: string) returns (script: seq<Edit>)
    ensures Turns(script, a, b) && |script| == Distance(a, b)
    decreases |a| + |b|
  {
    hide Distance, Turns, Apply, Applicable;
    if a == [] {
      DistanceToEmpty(b);
      script := InsertAll(b);
    } else if b == [] {
      DistanceToEmpty(a);
      script := DeleteAll(a);
    } else {
      DistanceCases(a, b);
      if Distance(a, b) == Distance(Init(a), b) + 1 {
        var s := ShortestScript(Init(a), b);
        TurnsWithTail(s, Init(a), b, Last(a));
        EditsAtEnd(b, Last(a), Last(a));
        TurnsThen(s, a, b + [Last(a)], Delete(|b|));
        script := s + [Delete(|b|)];
      } else if Distance(a, b) == Distance(a, Init(b)) + 1 {
        var s := ShortestScript(a, Init(b));
        EditsAtEnd(Init(b), Last(a), Last(b));
        TurnsThen(s, a, Init(b), Insert(|Init(b)|, Last(b)));
        script := s + [Insert(|Init(b)|, Last(b))];
      } else {
        var s := ShortestScript(Init(a), Init(b));
        TurnsWithTail(s, Init(a), Init(b), Last(a));
        if Last(a) == Last(b) {
          script := s;
        } else {
          EditsAtEnd(Init(b), Last(a), Last(b));
          TurnsThen(s, a, Init(b) + [Last(a)], Replace(|Init(b)|, Last(b)));
          script := s + [Replace(|Init(b)|, Last(b))];
        }
      }
    }
  }
}
