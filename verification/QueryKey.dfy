/** The cache key of a query text, and when text and key mean the same tokens. */
module QueryKey {
  import opened Lexer

  // ------------------------------------------------------------------ the key

  /** The length of the longest prefix without white space. */
  function WordSpan(s: string): (n: nat)
    ensures n <= |s| && (forall i :: 0 <= i < n ==> !IsWhitespace(s[i])) && (n < |s| ==> IsWhitespace(s[n]))
  {
    if s == [] || IsWhitespace(s[0]) then 0 else 1 + WordSpan(s[1..])
  }

  function Words(s: string): seq<string>
    decreases |s|
  {
    if s == [] then []
    else if IsWhitespace(s[0]) then Words(s[1..])
    else [s[..WordSpan(s)]] + Words(s[WordSpan(s)..])
  }

  function Join(words: seq<string>): string {
    if words == [] then ""
    else if |words| == 1 then words[0]
    else words[0] + (" " + Join(words[1..]))
  }

  function Normalize(query: string): string { Join(Words(query)) }

  /** The text without leading white space. */
  function Strip(s: string): (t: string)
    ensures |t| <= |s| && (t != [] ==> !IsWhitespace(t[0]))
  {
    if s != [] && IsWhitespace(s[0]) then Strip(s[1..]) else s
  }

  /** The key form of what follows a character: runs of white space are one blank, at the end none. */
  function Tail(s: string): string {
    if s == [] then ""
    else if !IsWhitespace(s[0]) then [s[0]] + Tail(s[1..])
    else if |s| == 1 then ""
    else if IsWhitespace(s[1]) then Tail(s[1..])
    else " " + Tail(s[1..])
  }

  lemma {:induction false} TailOfChar(s: string)
    requires s != [] && !IsWhitespace(s[0])
    ensures Tail(s) != [] && Tail(s)[0] == s[0] && Tail(s)[1..] == Tail(s[1..])
  {
  }

  lemma {:induction false} TailOfSpace(s: string)
    requires s != [] && IsWhitespace(s[0])
    ensures Tail(s) == if Strip(s) == "" then "" else " " + Tail(Strip(s))
    decreases |s|
  {
    if |s| > 1 && IsWhitespace(s[1]) {
      TailOfSpace(s[1..]);
    }
  }

  /** What is in front of white space stays as it is. */
  lemma {:induction false} TailPrefix(s: string, n: nat)
    requires n <= |s| && forall i :: 0 <= i < n ==> !IsWhitespace(s[i])
    ensures Tail(s) == s[..n] + Tail(s[n..])
    decreases n
  {
    if n > 0 {
      TailPrefix(s[1..], n - 1);
      assert s[1..][n - 1..] == s[n..] && s[..n] == [s[0]] + s[1..][..n - 1];
    }
  }

  lemma {:induction false} NoWords(s: string)
    ensures Words(s) == [] <==> Strip(s) == ""
    decreases |s|
  {
    if s != [] && IsWhitespace(s[0]) {
      NoWords(s[1..]);
    }
  }

  /** Joining the words with blanks is the same as squeezing the white space. */
  lemma {:induction false} NormalizeIsTail(s: string)
    ensures Normalize(s) == Tail(Strip(s))
    decreases |s|
  {
    if s != [] {
      if IsWhitespace(s[0]) {
        NormalizeIsTail(s[1..]);
      } else {
        var n := WordSpan(s);
        var post := s[n..];
        TailPrefix(s, n);
        NormalizeIsTail(post);
        NoWords(post);
        if post != [] {
          TailOfSpace(post);
        }
        hide Tail, Strip, WordSpan;
        assert Words(s) == [s[..n]] + Words(post);
        assert ([s[..n]] + Words(post))[1..] == Words(post);
      }
    }
  }

  // ------------------------------------------------------------- texts without comments

  predicate OpensComment(s: string, i: nat)
    requires i + 1 < |s|
  {
    s[i] == '/' && (s[i + 1] == '/' || s[i + 1] == '*')
  }

  ghost predicate NoComment(s: string) { forall i :: 0 <= i < |s| - 1 ==> !OpensComment(s, i) }

  lemma {:induction false} NoCommentSuffix(s: string, n: nat)
    requires NoComment(s) && n <= |s|
    ensures NoComment(s[n..])
  {
    forall i | 0 <= i < |s[n..]| - 1 ensures !OpensComment(s[n..], i) {
      assert !OpensComment(s, n + i);
    }
  }

  lemma {:induction false} NoCommentCons(c: char, s: string)
    requires NoComment(s) && (s != [] ==> !OpensComment([c, s[0]], 0))
    ensures NoComment([c] + s)
  {
    forall i | 0 <= i < |[c] + s| - 1 ensures !OpensComment([c] + s, i) {
      if i > 0 {
        assert !OpensComment(s, i - 1);
      }
    }
  }

  lemma {:induction false} NoCommentTail(s: string)
    requires NoComment(s)
    ensures NoComment(Tail(s))
    decreases |s|
  {
    if s != [] {
      NoCommentSuffix(s, 1);
      NoCommentTail(s[1..]);
      if !IsWhitespace(s[0]) {
        if |s| > 1 {
          assert !OpensComment(s, 0);
          if IsWhitespace(s[1]) {
            TailOfSpace(s[1..]);
          } else {
            TailOfChar(s[1..]);
          }
        }
        NoCommentCons(s[0], Tail(s[1..]));
      } else if |s| > 1 && !IsWhitespace(s[1]) {
        NoCommentCons(' ', Tail(s[1..]));
      }
    }
  }

  lemma {:induction false} StripSuffix(s: string)
    requires NoComment(s)
    ensures NoComment(Strip(s)) && Skip(s) == Strip(s)
    decreases |s|
  {
    if s != [] && IsWhitespace(s[0]) {
      NoCommentSuffix(s, 1);
      StripSuffix(s[1..]);
    } else if |s| >= 2 {
      assert !OpensComment(s, 0);
      assert s[..2][0] == s[0] && s[..2][1] == s[1];
    }
  }

  // ------------------------------------------------- tokens that are not literals

  lemma {:induction false} IdentSpanTail(u: Unicode, r: string)
    requires Sound(u)
    ensures IdentSpan(u, Tail(r)) == IdentSpan(u, r)
    ensures forall i :: 0 <= i < IdentSpan(u, r) ==> !IsWhitespace(r[i])
    decreases |r|
  {
    if r != [] {
      if IsWhitespace(r[0]) {
        TailOfSpace(r);
      } else {
        TailOfChar(r);
        IdentSpanTail(u, r[1..]);
      }
    }
  }

  lemma {:induction false} DigitSpanTail(r: string)
    ensures DigitSpan(Tail(r)) == DigitSpan(r)
    decreases |r|
  {
    if r != [] {
      if IsWhitespace(r[0]) {
        TailOfSpace(r);
      } else {
        TailOfChar(r);
        DigitSpanTail(r[1..]);
      }
    }
  }

  /** A number with a dot behind which only white space follows: the key drops it, and the dot then
      belongs to the number. */
  predicate LosesSpace(r: string) {
    var i := DigitSpan(r);
    i + 1 < |r| && r[i] == '.' && Strip(r[i + 1..]) == ""
  }

  lemma {:induction false} TailAt(r: string, i: nat)
    requires i < |r| && forall j :: 0 <= j < i ==> !IsWhitespace(r[j])
    ensures i <= |Tail(r)| && Tail(r)[..i] == r[..i] && Tail(r)[i..] == Tail(r[i..])
    ensures !IsWhitespace(r[i]) ==> i < |Tail(r)| && Tail(r)[i] == r[i]
    ensures IsWhitespace(r[i]) && i < |Tail(r)| ==> Tail(r)[i] == ' '
  {
    TailPrefix(r, i);
    if IsWhitespace(r[i]) {
      TailOfSpace(r[i..]);
    } else {
      TailOfChar(r[i..]);
    }
  }

  lemma {:induction false} TakesDotTail(r: string)
    requires !LosesSpace(r)
    ensures TakesDot(Tail(r)) <==> TakesDot(r)
  {
    var i := DigitSpan(r);
    DigitSpanTail(r);
    NoSpaceInNumber(r);
    BlankIsNoDigit();
    hide Tail, Strip, DigitSpan, IsWhitespace, IsDigit;
    TailPrefix(r, i);
    if i < |r| {
      TailAt(r, i);
      SpaceIsNoDigit(r[i]);
      if r[i] == '.' && i + 1 < |r| {
        TailAt(r, i + 1);
        SpaceIsNoDigit(r[i + 1]);
        DotBehind(r, i);
      } else if r[i] == '.' {
        TailPrefix(r, i + 1);
        EmptyTail();
        assert r[i + 1..] == [];
      }
    } else {
      EmptyTail();
      assert r[i..] == [];
    }
  }

  lemma {:induction false} BlankIsNoDigit()
    ensures !IsDigit(' ')
  {
  }

  lemma {:induction false} SpaceIsNoDigit(c: char)
    ensures IsWhitespace(c) ==> !IsDigit(c) && c != '.'
  {
  }

  lemma {:induction false} EmptyTail()
    ensures Tail([]) == []
  {
  }

  lemma {:induction false} NumberTail(r: string)
    requires r != [] && IsDigit(r[0]) && !LosesSpace(r)
    ensures NumberToken(Tail(r)) == NumberToken(r)
    ensures NumberToken(r).Token? ==>
      NumberToken(r).length <= |r| && forall i :: 0 <= i < NumberToken(r).length ==> !IsWhitespace(r[i])
  {
    hide *;
    var i := DigitSpan(r);
    var q := Tail(r);
    TakesDotTail(r);
    DigitSpanTail(r);
    NumberParts(r);
    NumberParts(q);
    NoSpaceInNumber(r);
    if TakesDot(r) {
      var j := i + 1 + DigitSpan(r[i + 1..]);
      TailPrefix(r, j);
      TailPrefix(r, i + 1);
      DigitSpanTail(r[i + 1..]);
      assert q[i + 1..] == Tail(r[i + 1..]) && q[..j] == r[..j];
    } else {
      TailPrefix(r, i);
      assert q[..i] == r[..i];
      IntTokenLength(r[..i]);
    }
  }

  lemma {:induction false} NumberParts(r: string)
    ensures var i := DigitSpan(r);
      if TakesDot(r) then
        var j := i + 1 + DigitSpan(r[i + 1..]);
        i < |r| && j <= |r| && NumberToken(r) == Token(Float(r[..j]), j)
      else NumberToken(r) == IntToken(r[..i])
  {
    hide DigitsValue, DigitSpan, IntToken, IsDigit, TakesDot;
    if TakesDot(r) {
      TakesDotBound(r);
    }
  }

  lemma {:induction false} TakesDotBound(r: string)
    requires TakesDot(r)
    ensures DigitSpan(r) < |r|
  {
  }

  lemma {:induction false} NoSpaceInNumber(r: string)
    ensures var i := DigitSpan(r);
      && (forall k :: 0 <= k < i ==> !IsWhitespace(r[k]))
      && (TakesDot(r) ==> i < |r| && forall k :: 0 <= k < i + 1 + DigitSpan(r[i + 1..]) ==> !IsWhitespace(r[k]))
  {
    var i := DigitSpan(r);
    if TakesDot(r) {
      assert forall k :: i + 1 <= k < i + 1 + DigitSpan(r[i + 1..]) ==> r[k] == r[i + 1..][k - i - 1];
    }
  }

  lemma {:induction false} IntTokenLength(digits: string)
    requires forall i :: 0 <= i < |digits| ==> IsDigit(digits[i])
    ensures IntToken(digits).Token? ==> IntToken(digits).length == |digits|
  {
    hide DigitsValue;
  }

  lemma {:induction false} DotBehind(r: string, i: nat)
    requires i + 1 < |r| && !IsWhitespace(r[i]) && (forall j :: 0 <= j < i ==> !IsWhitespace(r[j]))
    requires Strip(r[i + 1..]) != ""
    ensures i + 1 < |Tail(r)|
  {
    TailPrefix(r, i + 1);
    if IsWhitespace(r[i + 1]) {
      TailOfSpace(r[i + 1..]);
    } else {
      TailOfChar(r[i + 1..]);
    }
  }

  lemma {:induction false} SpaceIsNoOperator(d: char)
    requires IsWhitespace(d)
    ensures d !in ">=-" && d != '~' && d != '=' && d != '>'
  {
  }

  lemma {:induction false} SymbolTail(r: string)
    requires r != [] && !IsWhitespace(r[0])
    ensures SymbolToken(Tail(r)) == SymbolToken(r)
    ensures SymbolToken(r).Token? ==>
      SymbolToken(r).length <= |r| && forall i :: 0 <= i < SymbolToken(r).length ==> !IsWhitespace(r[i])
  {
    hide *;
    SymbolSpan(r);
    TailOfChar(r);
    if |r| > 1 {
      TailAt(r, 1);
      SecondOfTail(r);
    } else {
      EmptyTail();
      assert r[1..] == [];
    }
    SymbolLocal(r, Tail(r));
  }

  lemma {:induction false} SymbolSpan(r: string)
    requires r != [] && !IsWhitespace(r[0])
    ensures SymbolToken(r).Token? ==>
      SymbolToken(r).length <= |r| && forall i :: 0 <= i < SymbolToken(r).length ==> !IsWhitespace(r[i])
  {
    if |r| > 1 && IsWhitespace(r[1]) {
      SpaceIsNoOperator(r[1]);
    }
    SpaceIsNoOperator(' ');
  }

  lemma {:induction false} SecondOfTail(r: string)
    requires |r| > 1 && !IsWhitespace(r[0]) && Tail(r) != []
    requires !IsWhitespace(r[1]) ==> 1 < |Tail(r)| && Tail(r)[1] == r[1]
    requires IsWhitespace(r[1]) && 1 < |Tail(r)| ==> Tail(r)[1] == ' '
    ensures SameSecond(r, Tail(r))
  {
    hide Tail;
    SpaceIsNoOperator(' ');
    if IsWhitespace(r[1]) {
      SpaceIsNoOperator(r[1]);
    }
  }

  predicate NoOperator(d: char) { d !in ">=-" && d != '~' && d != '=' && d != '>' }

  /** The second characters are equal, or neither makes an operator of two characters. */
  predicate SameSecond(r: string, q: string) {
    (|r| > 1 && |q| > 1 && r[1] == q[1]) || ((|r| > 1 ==> NoOperator(r[1])) && (|q| > 1 ==> NoOperator(q[1])))
  }

  lemma {:induction false} SymbolLocal(r: string, q: string)
    requires r != [] && q != [] && r[0] == q[0] && (SameSecond(r, q) || (|r| == 1 && |q| == 1))
    ensures SymbolToken(q) == SymbolToken(r)
  {
    SpaceIsNoOperator(' ');
  }

  /** A token that is not a literal is the same at the start of the key, and so is what follows it. */
  lemma {:induction false} TokenTail(u: Unicode, r: string)
    requires Sound(u) && r != [] && !IsWhitespace(r[0]) && r[0] != '"' && r[0] != '\''
    requires !(IsDigit(r[0]) && LosesSpace(r))
    ensures Tail(r) != [] && TokenOf(u, Tail(r)) == TokenOf(u, r)
    ensures TokenOf(u, r).Token? ==>
      var n := TokenOf(u, r).length;
      1 <= n <= |r| && n <= |Tail(r)| && Tail(r)[n..] == Tail(r[n..]) && !TokenOf(u, r).kind.Str?
  {
    TailOfChar(r);
    TokenLength(u, r);
    TokenSpan(u, r);
    hide Tail, NumberToken, SymbolToken, IdentSpan, LosesSpace, StringBody, Classify;
    if TokenOf(u, r).Token? {
      TailPrefix(r, TokenOf(u, r).length);
    }
    if IsIdentStart(r[0]) {
      IdentSpanTail(u, r);
      TailPrefix(r, IdentSpan(u, r));
    } else if IsDigit(r[0]) {
      NumberTail(r);
    } else if r[0] == '$' {
      ParameterTail(u, r);
    } else {
      SymbolTail(r);
    }
  }

  lemma {:induction false} ParameterTail(u: Unicode, r: string)
    requires Sound(u) && r != [] && r[0] == '$'
    ensures TokenOf(u, Tail(r)) == TokenOf(u, r)
  {
    TailOfChar(r);
    hide Tail, NumberToken, SymbolToken, IdentSpan, StringBody;
    IdentSpanTail(u, r[1..]);
    var n := IdentSpan(u, r[1..]);
    TailPrefix(r[1..], n);
    assert r[1..n + 1] == r[1..][..n] && Tail(r)[1..n + 1] == Tail(r)[1..][..n];
  }

  lemma {:induction false} TokenSpan(u: Unicode, r: string)
    requires Sound(u) && r != [] && !IsWhitespace(r[0]) && r[0] != '"' && r[0] != '\''
    requires !(IsDigit(r[0]) && LosesSpace(r))
    ensures TokenOf(u, r).Token? ==>
      var n := TokenOf(u, r).length;
      n <= |r| && !TokenOf(u, r).kind.Str? && forall i :: 0 <= i < n ==> !IsWhitespace(r[i])
  {
    hide Tail;
    if IsIdentStart(r[0]) {
      IdentSpanTail(u, r);
    } else if IsDigit(r[0]) {
      NumberTail(r);
    } else if r[0] == '$' {
      IdentSpanTail(u, r[1..]);
      assert forall i :: 1 <= i < |r| ==> r[i] == r[1..][i - 1];
    } else {
      SymbolTail(r);
    }
  }

  // ------------------------------------------------------------------------ literals

  /** White space comes only as single blanks. */
  ghost predicate OneBlank(t: string) {
    forall i :: 0 <= i < |t| && IsWhitespace(t[i]) ==> t[i] == ' ' && (i + 1 < |t| ==> !IsWhitespace(t[i + 1]))
  }

  lemma {:induction false} OneBlankCons(c: char, t: string)
    ensures OneBlank([c] + t) <==>
      (IsWhitespace(c) ==> c == ' ' && (t != [] ==> !IsWhitespace(t[0]))) && OneBlank(t)
  {
    var s := [c] + t;
    assert s[1..] == t;
    if OneBlank(s) {
      forall i | 0 <= i < |t| && IsWhitespace(t[i]) ensures t[i] == ' ' && (i + 1 < |t| ==> !IsWhitespace(t[i + 1])) {
        assert s[i + 1] == t[i] && (i + 1 < |t| ==> s[i + 2] == t[i + 1]);
      }
      assert s[0] == c && (t != [] ==> s[1] == t[0]);
    } else {
      var i :| 0 <= i < |s| && IsWhitespace(s[i]) && !(s[i] == ' ' && (i + 1 < |s| ==> !IsWhitespace(s[i + 1])));
      if i > 0 {
        assert s[i] == t[i - 1] && (i < |t| ==> s[i + 1] == t[i]);
      }
    }
  }

  /** How the text of a literal and its key form are scanned: both or neither end, what follows corresponds,
      and the values are equal exactly when all white space in the literal is single blanks. */
  ghost predicate Corresponds(quote: char, b: string) {
    var t, k := StringBody(quote, b), StringBody(quote, Tail(b));
    && (t.Token? <==> k.Token?)
    && (t.Token? ==>
          && t.kind.Str? && k.kind.Str? && 1 <= t.length <= |b| && k.length <= |Tail(b)|
          && Tail(b)[k.length..] == Tail(b[t.length..])
          && |k.kind.value| <= |t.kind.value|
          && (k.kind.value == t.kind.value <==> OneBlank(b[..t.length])))
  }

  /** A character of the literal and the character it becomes in the key. */
  lemma {:induction false} OneMoreChar(quote: char, b: string, k: nat, c: char, d: char)
    requires 1 <= k <= |b| && Corresponds(quote, b[k..]) && k <= |Tail(b)| && Tail(b)[k..] == Tail(b[k..])
    requires StringBody(quote, b) == Prefixed([c], k, StringBody(quote, b[k..]))
    requires StringBody(quote, Tail(b)) == Prefixed([d], k, StringBody(quote, Tail(b)[k..]))
    requires StringBody(quote, b[k..]).Token? ==>
      var n := k + StringBody(quote, b[k..]).length;
      n <= |b| && (OneBlank(b[..n]) <==> c == d && OneBlank(b[k..n]))
    ensures Corresponds(quote, b)
  {
    hide *;
    var t, q := StringBody(quote, b[k..]), StringBody(quote, Tail(b)[k..]);
    StringLength(quote, b[k..]);
    StringLength(quote, Tail(b)[k..]);
    CorrespondsParts(quote, b[k..]);
    PrefixedParts([c], k, t);
    PrefixedParts([d], k, q);
    if t.Token? {
      var n := k + t.length;
      assert b[k..][t.length..] == b[n..] && Tail(b)[k..][q.length..] == Tail(b)[k + q.length..];
      assert b[k..n] == b[k..][..t.length];
      ConsEqual(c, t.kind.value, d, q.kind.value);
    }
    CorrespondsFromParts(quote, b);
  }

  lemma {:induction false} PrefixedParts(value: string, k: nat, t: Scan)
    requires t.Token? ==> t.kind.Str?
    ensures Prefixed(value, k, t) == if t.Token? then Token(Str(value + t.kind.value), k + t.length) else t
  {
  }

  lemma {:induction false} CorrespondsParts(quote: char, b: string)
    requires Corresponds(quote, b)
    ensures var t, k := StringBody(quote, b), StringBody(quote, Tail(b));
      && (t.Token? <==> k.Token?)
      && (t.Token? ==>
            && t.kind.Str? && k.kind.Str? && 1 <= t.length <= |b| && k.length <= |Tail(b)|
            && Tail(b)[k.length..] == Tail(b[t.length..])
            && |k.kind.value| <= |t.kind.value|
            && (k.kind.value == t.kind.value <==> OneBlank(b[..t.length])))
  {
  }

  lemma {:induction false} CorrespondsFromParts(quote: char, b: string)
    requires var t, k := StringBody(quote, b), StringBody(quote, Tail(b));
      && (t.Token? <==> k.Token?)
      && (t.Token? ==>
            && t.kind.Str? && k.kind.Str? && 1 <= t.length <= |b| && k.length <= |Tail(b)|
            && Tail(b)[k.length..] == Tail(b[t.length..])
            && |k.kind.value| <= |t.kind.value|
            && (k.kind.value == t.kind.value <==> OneBlank(b[..t.length])))
    ensures Corresponds(quote, b)
  {
  }

  lemma {:induction false} ConsEqual(c: char, v: string, d: char, w: string)
    ensures [c] + v == [d] + w <==> c == d && v == w
  {
    assert ([c] + v)[1..] == v && ([d] + w)[1..] == w && ([c] + v)[0] == c && ([d] + w)[0] == d;
  }

  /** A first white-space character of several: the key does not have it. */
  lemma {:induction false} OneCharLess(quote: char, b: string, less: string, c: char)
    requires |b| == |less| + 1 && Corresponds(quote, less) && Tail(b) == Tail(less)
    requires StringBody(quote, b) == Prefixed([c], 1, StringBody(quote, less))
    requires StringBody(quote, less).Token? ==>
      var n := StringBody(quote, less).length;
      n <= |less| && b[n + 1..] == less[n..] && !OneBlank(b[..n + 1])
    ensures Corresponds(quote, b)
  {
    hide OneBlank, Tail;
    StringLength(quote, less);
    hide StringBody;
  }

  lemma {:induction false} LiteralTail(quote: char, b: string)
    requires quote == '"' || quote == '\''
    ensures Corresponds(quote, b)
    decreases |b|, 2
  {
    BodyStep(quote, b);
    BodyStep(quote, Tail(b));
    if b == [] {
    } else if b[0] == quote {
      TailOfChar(b);
      assert b[..1] == [quote];
    } else if b[0] == '\\' {
      EscapeTail(quote, b);
    } else if !IsWhitespace(b[0]) {
      TailOfChar(b);
      LiteralTail(quote, b[1..]);
      CharBlank(b);
      hide Corresponds, OneBlank, StringBody, Tail;
      OneMoreChar(quote, b, 1, b[0], b[0]);
    } else {
      SpaceTail(quote, b);
    }
  }

  lemma {:induction false} CharBlank(b: string)
    requires b != [] && !IsWhitespace(b[0])
    ensures forall n :: 1 <= n <= |b| ==> (OneBlank(b[..n]) <==> OneBlank(b[1..n]))
  {
    forall n | 1 <= n <= |b| ensures OneBlank(b[..n]) <==> OneBlank(b[1..n]) {
      assert b[..n] == [b[0]] + b[1..n];
      OneBlankCons(b[0], b[1..n]);
    }
  }

  lemma {:induction false} SpaceTail(quote: char, b: string)
    requires (quote == '"' || quote == '\'') && b != [] && IsWhitespace(b[0])
    ensures Corresponds(quote, b)
    decreases |b|, 1
  {
    LiteralTail(quote, b[1..]);
    BodyStep(quote, b);
    if |b| == 1 {
      StringLength(quote, b[1..]);
      assert b[1..] == [];
      BodyStep(quote, b[1..]);
      BodyStep(quote, Tail(b));
    } else if IsWhitespace(b[1]) {
      forall n | 2 <= n <= |b| ensures !OneBlank(b[..n]) {
        assert b[..n][0] == b[0] && b[..n][1] == b[1];
      }
      StringLength(quote, b[1..]);
      LongSpace(quote, b);
    } else {
      assert Tail(b) == " " + Tail(b[1..]);
      BodyStep(quote, Tail(b));
      assert Tail(b)[1..] == Tail(b[1..]);
      SpaceBlank(b);
      hide Corresponds, OneBlank, StringBody, Tail;
      OneMoreChar(quote, b, 1, b[0], ' ');
    }
  }

  lemma {:induction false} LongSpace(quote: char, b: string)
    requires |b| > 1 && IsWhitespace(b[0]) && IsWhitespace(b[1]) && Corresponds(quote, b[1..])
    requires StringBody(quote, b) == Prefixed([b[0]], 1, StringBody(quote, b[1..]))
    requires forall n :: 2 <= n <= |b| ==> !OneBlank(b[..n])
    ensures Corresponds(quote, b)
  {
    assert Tail(b) == Tail(b[1..]);
    hide OneBlank, Tail, StringBody;
    OneCharLess(quote, b, b[1..], b[0]);
  }

  lemma {:induction false} SpaceBlank(b: string)
    requires |b| > 1 && IsWhitespace(b[0]) && !IsWhitespace(b[1])
    ensures forall n :: 1 <= n <= |b| ==> (OneBlank(b[..n]) <==> b[0] == ' ' && OneBlank(b[1..n]))
  {
    forall n | 1 <= n <= |b| ensures OneBlank(b[..n]) <==> b[0] == ' ' && OneBlank(b[1..n]) {
      assert b[..n] == [b[0]] + b[1..n];
      OneBlankCons(b[0], b[1..n]);
    }
  }

  /** A backslash with the character it escapes. */
  lemma {:induction false} EscapeTail(quote: char, b: string)
    requires (quote == '"' || quote == '\'') && b != [] && b[0] == '\\'
    ensures Corresponds(quote, b)
    decreases |b|, 1
  {
    TailOfChar(b);
    BodyStep(quote, b);
    BodyStep(quote, Tail(b));
    if |b| > 1 {
      if !IsWhitespace(b[1]) {
        TailOfChar(b[1..]);
        assert b[1..][1..] == b[2..] && Tail(b)[2..] == Tail(b)[1..][1..] && Tail(b)[1] == b[1];
        LiteralTail(quote, b[2..]);
        EscapeBlank(b);
        hide Corresponds, OneBlank, StringBody, Tail;
        OneMoreChar(quote, b, 2, Escaped(b[1]), Escaped(b[1]));
      } else if |b| == 2 {
        assert b[2..] == [] && Tail(b[1..]) == "";
        BodyStep(quote, b[2..]);
      } else if IsWhitespace(b[2]) {
        EscapeLongSpace(quote, b);
      } else {
        EscapeOneSpace(quote, b);
      }
    }
  }

  lemma {:induction false} EscapeBlank(b: string)
    requires |b| > 1 && !IsWhitespace(b[0]) && !IsWhitespace(b[1])
    ensures forall n :: 2 <= n <= |b| ==> (OneBlank(b[..n]) <==> OneBlank(b[2..n]))
  {
    CharBlank(b);
    CharBlank(b[1..]);
    forall n | 2 <= n <= |b| ensures OneBlank(b[..n]) <==> OneBlank(b[2..n]) {
      assert b[1..][..n - 1] == b[1..n] && b[1..][1..n - 1] == b[2..n];
    }
  }

  lemma {:induction false} EscapeOneSpace(quote: char, b: string)
    requires (quote == '"' || quote == '\'') && |b| > 2 && b[0] == '\\' && IsWhitespace(b[1]) && !IsWhitespace(b[2])
    ensures Corresponds(quote, b)
    decreases |b|, 0
  {
    assert Tail(b[1..]) == " " + Tail(b[2..]) by { assert b[1..][1..] == b[2..] && b[1..][1] == b[2]; }
    assert Tail(b) == ['\\', ' '] + Tail(b[2..]);
    assert Tail(b)[2..] == Tail(b[2..]);
    BodyStep(quote, b);
    BodyStep(quote, Tail(b));
    LiteralTail(quote, b[2..]);
    CharBlank(b);
    SpaceBlank(b[1..]);
    forall n | 2 <= n <= |b| ensures OneBlank(b[..n]) <==> Escaped(b[1]) == Escaped(' ') && OneBlank(b[2..n]) {
      assert b[1..][..n - 1] == b[1..n] && b[1..][1..n - 1] == b[2..n];
    }
    hide Corresponds, OneBlank, StringBody, Tail;
    OneMoreChar(quote, b, 2, Escaped(b[1]), Escaped(' '));
  }

  /** An escaped white-space character with more white space behind it counts like one that is not escaped. */
  lemma {:induction false} EscapeLongSpace(quote: char, b: string)
    requires (quote == '"' || quote == '\'') && |b| > 2 && b[0] == '\\' && IsWhitespace(b[1]) && IsWhitespace(b[2])
    ensures Corresponds(quote, b)
    decreases |b|, 0
  {
    var less := ['\\'] + b[2..];
    SameTail(b, less);
    EscapeTail(quote, less);
    SameBody(quote, b, less);
    forall n | 3 <= n <= |b| ensures !OneBlank(b[..n]) {
      assert b[..n][1] == b[1] && b[..n][2] == b[2];
    }
    hide *;
    EscapeLess(quote, b, less);
  }

  lemma {:induction false} SameTail(b: string, less: string)
    requires |b| > 2 && b[0] == '\\' && IsWhitespace(b[1]) && IsWhitespace(b[2]) && less == ['\\'] + b[2..]
    ensures Tail(less) == Tail(b)
  {
    assert b[1..][1..] == b[2..] && b[1..][1] == b[2];
    assert Tail(b[1..]) == Tail(b[2..]);
    assert less[1..] == b[2..];
  }

  /** White space behind an escaped character is read whether or not it is escaped itself. */
  lemma {:induction false} SameBody(quote: char, b: string, less: string)
    requires (quote == '"' || quote == '\'') && |b| > 2 && b[0] == '\\' && IsWhitespace(b[1]) && IsWhitespace(b[2])
    requires less == ['\\'] + b[2..]
    ensures StringBody(quote, b) == Prefixed([b[1]], 1, StringBody(quote, less))
    ensures StringBody(quote, less).Token? ==> StringBody(quote, less).length >= 2
  {
    BodyStep(quote, b);
    BodyStep(quote, b[2..]);
    BodyStep(quote, less);
    assert less[1] == b[2] && less[2..] == b[3..] && b[2..][1..] == b[3..];
    assert Escaped(b[1]) == b[1] && Escaped(b[2]) == b[2];
    hide StringBody, IsWhitespace;
    PrefixedTwice([b[1]], [b[2]], 2, 1, StringBody(quote, b[3..]));
    PrefixedTwice([b[1]], [b[2]], 1, 2, StringBody(quote, b[3..]));
    StringLength(quote, b[3..]);
    PrefixedParts([b[2]], 2, StringBody(quote, b[3..]));
  }

  lemma {:induction false} EscapeLess(quote: char, b: string, less: string)
    requires |b| > 2 && less == ['\\'] + b[2..] && Corresponds(quote, less) && Tail(less) == Tail(b)
    requires StringBody(quote, b) == Prefixed([b[1]], 1, StringBody(quote, less))
    requires StringBody(quote, less).Token? ==> StringBody(quote, less).length >= 2
    requires forall n :: 3 <= n <= |b| ==> !OneBlank(b[..n])
    ensures Corresponds(quote, b)
  {
    hide OneBlank, Tail;
    StringLength(quote, less);
    hide StringBody;
    if StringBody(quote, less).Token? {
      var n := StringBody(quote, less).length;
      assert b[n + 1..] == less[n..];
    }
    OneCharLess(quote, b, less, b[1]);
  }

  // ---------------------------------------------------------------------- whole texts

  /** Some literal of the text holds white space that is not a single blank. */
  ghost predicate Spoiled(u: Unicode, r: string)
    decreases |r|
  {
    var s := Skip(r);
    s != [] &&
    (TokenLength(u, s);
     match TokenOf(u, s)
     case Failed(_) => false
     case Token(kind, n) => (kind.Str? && !OneBlank(s[..n])) || Spoiled(u, s[n..]))
  }

  predicate EndsInSpace(s: string) { s != [] && IsWhitespace(s[|s| - 1]) }

  /** The last token is a number with a dot behind it. */
  predicate DottedEnd(k: Kinds) {
    k.Ok? && k.kinds != [] && var last := k.kinds[|k.kinds| - 1];
    last.Float? && last.text != "" && last.text[|last.text| - 1] == '.'
  }

  lemma {:induction false} DottedCons(kind: TokenKind, rest: Kinds)
    ensures rest.Ok? && rest.kinds != [] ==> (DottedEnd(Continued([kind], rest)) <==> DottedEnd(rest))
    ensures rest == Ok([]) ==>
      (DottedEnd(Continued([kind], rest)) <==> kind.Float? && kind.text != "" && kind.text[|kind.text| - 1] == '.')
    ensures rest.Err? ==> Continued([kind], rest) == rest
  {
  }

  /** A number token that ends in a dot is at the end of the text. */
  lemma {:induction false} DotAtEnd(u: Unicode, r: string)
    requires r != [] && TokenOf(u, r).Token? && TokenOf(u, r).kind.Float?
    ensures var t := TokenOf(u, r).kind.text;
      t != "" && TokenOf(u, r).length <= |r| && (t[|t| - 1] == '.' ==> TokenOf(u, r).length == |r| && r[|r| - 1] == '.')
  {
    if IsDigit(r[0]) {
      NumberParts(r);
      var i := DigitSpan(r);
      assert i >= 1;
      if TakesDot(r) && i + 1 < |r| {
        var j := i + 1 + DigitSpan(r[i + 1..]);
        assert r[i + 1..][0] == r[i + 1] && DigitSpan(r[i + 1..]) >= 1;
        assert r[j - 1] == r[i + 1..][j - i - 2];
      }
    } else if r[0] == '"' || r[0] == '\'' {
      StringLength(r[0], r[1..]);
    }
  }

  lemma {:induction false} OnlySpaceKinds(u: Unicode, r: string)
    requires NoComment(r) && Strip(r) == ""
    ensures KindsOf(u, r) == Ok([])
  {
    StripSuffix(r);
    KindsStep(u, r);
  }

  lemma {:induction false} KindsNotEmpty(u: Unicode, r: string)
    requires NoComment(r) && Strip(r) != ""
    ensures KindsOf(u, r) != Ok([])
  {
    StripSuffix(r);
    KindsStep(u, r);
  }

  /** Leading white space does not matter, in the text and in the key form. */
  lemma {:induction false} StripKinds(u: Unicode, r: string)
    requires NoComment(r)
    ensures KindsOf(u, r) == KindsOf(u, Strip(r)) && KindsOf(u, Tail(r)) == KindsOf(u, Tail(Strip(r)))
    ensures Spoiled(u, r) == Spoiled(u, Strip(r)) && (Strip(r) != "" ==> EndsInSpace(r) == EndsInSpace(Strip(r)))
  {
    StripSuffix(r);
    StripTwice(r);
    StripSuffix(Strip(r));
    KindsBySkip(u, r, Strip(r));
    if r != [] && IsWhitespace(r[0]) {
      TailOfSpace(r);
      NoCommentTail(r);
      NoCommentTail(Strip(r));
      StripSuffix(Tail(r));
      StripSuffix(Tail(Strip(r)));
      BlankTail(r);
      KindsBySkip(u, Tail(r), Tail(Strip(r)));
    }
    StripEnd(r);
  }

  lemma {:induction false} KindsBySkip(u: Unicode, r: string, s: string)
    requires Skip(r) == Skip(s)
    ensures KindsOf(u, r) == KindsOf(u, s) && Spoiled(u, r) == Spoiled(u, s)
  {
    KindsStep(u, r);
    KindsStep(u, s);
    hide Skip, TokenOf;
  }

  lemma {:induction false} BlankTail(r: string)
    requires r != [] && IsWhitespace(r[0])
    ensures Strip(Tail(r)) == Strip(Tail(Strip(r)))
  {
    TailOfSpace(r);
    if Strip(r) != "" {
      assert Tail(r)[1..] == Tail(Strip(r));
    }
  }

  lemma {:induction false} StripTwice(r: string)
    ensures Strip(Strip(r)) == Strip(r)
    decreases |r|
  {
  }

  lemma {:induction false} StripEnd(r: string)
    ensures Strip(r) != "" ==> EndsInSpace(r) == EndsInSpace(Strip(r))
    ensures Strip(r) == "" && r != "" ==> EndsInSpace(r)
    decreases |r|
  {
    if r != [] && IsWhitespace(r[0]) {
      StripEnd(r[1..]);
    }
  }

  /** The two ways in which a text and its key form part: literals that change, and a dot that joins a number. */
  ghost predicate Agrees(u: Unicode, r: string) {
    var a, b := KindsOf(u, r), KindsOf(u, Tail(r));
    && (b.Err? ==> a == b)
    && (b.Ok? ==> (a == b <==> !Spoiled(u, r) && !(EndsInSpace(r) && DottedEnd(b))))
  }

  /** The dot joins the number, and no literal can make up for it. */
  lemma {:induction false} DotJoins(u: Unicode, r: string)
    requires NoComment(r) && r != [] && IsDigit(r[0]) && LosesSpace(r)
    ensures Agrees(u, r)
  {
    hide *;
    DotKey(r);
    DotKinds(u, r);
    DottedDiffers(u, r, r[..DigitSpan(r) + 1]);
  }

  lemma {:induction false} DottedDiffers(u: Unicode, r: string, q: string)
    requires Tail(r) == q && q != "" && q[|q| - 1] == '.' && EndsInSpace(r)
    requires KindsOf(u, q) == Ok([Float(q)]) && KindsOf(u, r) != KindsOf(u, q)
    ensures Agrees(u, r)
  {
    hide KindsOf, Tail, Spoiled;
  }

  lemma {:induction false} DotKey(r: string)
    requires r != [] && IsDigit(r[0]) && LosesSpace(r)
    ensures var i := DigitSpan(r); i >= 1 && i + 1 < |r| && Tail(r) == r[..i + 1] && EndsInSpace(r) && r[i] == '.'
  {
    var i := DigitSpan(r);
    NoSpaceInNumber(r);
    TailPrefix(r, i + 1);
    assert IsWhitespace(r[i + 1]) by {
      assert r[i + 1..][0] == r[i + 1];
    }
    TailOfSpace(r[i + 1..]);
    StripEnd(r[i + 1..]);
  }

  lemma {:induction false} DotKinds(u: Unicode, r: string)
    requires NoComment(r) && r != [] && IsDigit(r[0]) && LosesSpace(r)
    ensures var i := DigitSpan(r); i + 1 < |r| && KindsOf(u, r[..i + 1]) == Ok([Float(r[..i + 1])])
    ensures KindsOf(u, r) != KindsOf(u, r[..DigitSpan(r) + 1])
  {
    hide *;
    var i := DigitSpan(r);
    DotKey(r);
    var q := r[..i + 1];
    DotTokens(u, r);
    NoCommentPrefix(r, i + 1);
    NoSpaceInNumber(r);
    StripSuffix(r);
    StripSuffix(q);
    StripChar(r);
    StripChar(q);
    KindsStep(u, q);
    EmptyKinds(u);
    KindsStep(u, r);
    assert q[i + 1..] == [];
    ContinuedOne(Float(q));
    if TokenOf(u, r).Token? {
      ContinuedFirst(TokenOf(u, r).kind, KindsOf(u, r[TokenOf(u, r).length..]), Float(q));
    }
  }

  lemma {:induction false} StripChar(r: string)
    requires r != [] && !IsWhitespace(r[0])
    ensures Strip(r) == r
  {
  }

  lemma {:induction false} ContinuedOne(kind: TokenKind)
    ensures Continued([kind], Ok([])) == Ok([kind])
  {
    assert [kind] + [] == [kind];
  }

  lemma {:induction false} ContinuedFirst(a: TokenKind, rest: Kinds, b: TokenKind)
    requires a != b
    ensures Continued([a], rest) != Ok([b])
  {
    if rest.Ok? {
      assert ([a] + rest.kinds)[0] == a;
    }
  }

  lemma {:induction false} DotTokens(u: Unicode, r: string)
    requires r != [] && IsDigit(r[0]) && LosesSpace(r)
    ensures var i := DigitSpan(r); i + 1 < |r| && TokenOf(u, r[..i + 1]) == Token(Float(r[..i + 1]), i + 1)
    ensures TokenOf(u, r).Token? ==> TokenOf(u, r).kind.Int?
  {
    hide *;
    var i := DigitSpan(r);
    DotParts(r);
    var q := r[..i + 1];
    NumberParts(q);
    NumberParts(r);
    assert q[i + 1..] == [] && q[..i + 1] == q;
    DigitStart(u, r);
    DigitStart(u, q);
    IntTokenKind(r[..i]);
  }

  lemma {:induction false} DotParts(r: string)
    requires r != [] && IsDigit(r[0]) && LosesSpace(r)
    ensures var i := DigitSpan(r);
      i + 1 < |r| && !TakesDot(r) && TakesDot(r[..i + 1]) && DigitSpan(r[..i + 1]) == i && DigitSpan([]) == 0
  {
    var i := DigitSpan(r);
    PrefixDigits(r, i);
    assert r[i + 1..][0] == r[i + 1];
    SpaceIsNoDigit(r[i + 1]);
  }

  lemma {:induction false} IntTokenKind(digits: string)
    requires forall i :: 0 <= i < |digits| ==> IsDigit(digits[i])
    ensures IntToken(digits).Token? ==> IntToken(digits).kind.Int?
  {
    hide DigitsValue;
  }

  lemma {:induction false} DigitStart(u: Unicode, r: string)
    requires r != [] && IsDigit(r[0])
    ensures TokenOf(u, r) == NumberToken(r)
  {
    hide NumberToken;
  }

  lemma {:induction false} NoCommentPrefix(s: string, n: nat)
    requires NoComment(s) && n <= |s|
    ensures NoComment(s[..n])
  {
    forall i | 0 <= i < |s[..n]| - 1 ensures !OpensComment(s[..n], i) {
      assert !OpensComment(s, i);
    }
  }

  lemma {:induction false} PrefixDigits(r: string, i: nat)
    requires i == DigitSpan(r) && i < |r|
    ensures DigitSpan(r[..i + 1]) == i
    decreases i
  {
    if i > 0 {
      assert r[1..][..i] == r[..i + 1][1..];
      PrefixDigits(r[1..], i - 1);
    }
  }

  lemma {:induction false} FirstKinds(u: Unicode, r: string)
    requires NoComment(r) && r != [] && !IsWhitespace(r[0]) && TokenOf(u, r).Token?
    ensures var n := TokenOf(u, r).length; 1 <= n <= |r|
    ensures var t := TokenOf(u, r);
      && KindsOf(u, r) == Continued([t.kind], KindsOf(u, r[t.length..]))
      && (Spoiled(u, r) <==> (t.kind.Str? && !OneBlank(r[..t.length])) || Spoiled(u, r[t.length..]))
  {
    StripSuffix(r);
    KindsStep(u, r);
    TokenLength(u, r);
    hide TokenOf, Skip, KindsOf, OneBlank;
  }

  lemma {:induction false} FailedKinds(u: Unicode, r: string)
    requires NoComment(r) && r != [] && !IsWhitespace(r[0]) && TokenOf(u, r).Failed?
    ensures KindsOf(u, r) == Err(TokenOf(u, r).error)
  {
    StripSuffix(r);
    KindsStep(u, r);
  }

  /** The first tokens of text and key form correspond, and the rests of the two. */
  ghost predicate SameStart(u: Unicode, r: string, n: nat, k: nat) {
    && n <= |r| && k <= |Tail(r)| && r != [] && Tail(r) != [] && !IsWhitespace(r[0])
    && TokenOf(u, r).Token? && TokenOf(u, r).length == n
    && TokenOf(u, Tail(r)).Token? && TokenOf(u, Tail(r)).length == k
    && Tail(r)[k..] == Tail(r[n..])
    && (TokenOf(u, r).kind == TokenOf(u, Tail(r)).kind <==> !(TokenOf(u, r).kind.Str? && !OneBlank(r[..n])))
    && (TokenOf(u, Tail(r)).kind.Str? <==> TokenOf(u, r).kind.Str?)
  }

  /** Whether the end is dotted is decided by the rest. */
  lemma {:induction false} DottedRest(u: Unicode, r: string, n: nat, k: nat)
    requires NoComment(r) && SameStart(u, r, n, k)
    ensures NoComment(r[n..])
    ensures var rest := KindsOf(u, Tail(r[n..]));
      EndsInSpace(r) && DottedEnd(Continued([TokenOf(u, Tail(r)).kind], rest)) <==>
      EndsInSpace(r[n..]) && DottedEnd(rest)
  {
    hide *;
    SameStartParts(u, r, n, k);
    NoCommentSuffix(r, n);
    NoCommentTail(r[n..]);
    var kind, rest := TokenOf(u, Tail(r)).kind, r[n..];
    DottedCons(kind, KindsOf(u, Tail(rest)));
    TailEmpty(rest);
    if Strip(rest) == "" {
      OnlySpaceKinds(u, Tail(rest));
      NothingDotted();
      if kind.Float? {
        DotAtEnd(u, r);
        LastIsNoSpace(r);
      }
    } else {
      KindsNotEmpty(u, Tail(rest));
      SameEnd(r, n);
      FailedIsNotDotted(KindsOf(u, Tail(rest)));
    }
  }

  lemma {:induction false} SameStartParts(u: Unicode, r: string, n: nat, k: nat)
    requires SameStart(u, r, n, k)
    ensures n <= |r| && r != [] && Tail(r) != [] && TokenOf(u, r).Token? && TokenOf(u, r).length == n
    ensures TokenOf(u, Tail(r)).Token?
    ensures TokenOf(u, Tail(r)).kind.Float? ==> TokenOf(u, r).kind == TokenOf(u, Tail(r)).kind
  {
    hide Tail, TokenOf, OneBlank;
  }

  lemma {:induction false} NothingDotted()
    ensures !DottedEnd(Ok([]))
  {
  }

  lemma {:induction false} FailedIsNotDotted(k: Kinds)
    ensures k.Err? ==> !DottedEnd(k)
  {
  }

  lemma {:induction false} LastIsNoSpace(r: string)
    ensures r != [] && r[|r| - 1] == '.' ==> !EndsInSpace(r)
  {
  }

  lemma {:induction false} SameEnd(r: string, n: nat)
    requires n <= |r| && Strip(r[n..]) != ""
    ensures EndsInSpace(r) == EndsInSpace(r[n..])
  {
    assert r[n..] != [];
    assert r[|r| - 1] == r[n..][|r[n..]| - 1];
  }

  lemma {:induction false} TailEmpty(r: string)
    ensures Strip(Tail(r)) == "" <==> Strip(r) == ""
  {
    if r != [] {
      if IsWhitespace(r[0]) {
        TailOfSpace(r);
        if Strip(r) != "" {
          TailOfChar(Strip(r));
          assert Tail(r)[1..] == Tail(Strip(r));
        }
      } else {
        TailOfChar(r);
      }
    }
  }

  lemma {:induction false} StepAgrees(u: Unicode, r: string, n: nat, k: nat)
    requires NoComment(r) && SameStart(u, r, n, k) && Agrees(u, r[n..])
    ensures Agrees(u, r)
  {
    var q, rest := Tail(r), r[n..];
    NoCommentTail(r);
    TailOfChar(r);
    FirstKinds(u, r);
    FirstKinds(u, q);
    DottedRest(u, r, n, k);
    hide TokenOf, KindsOf, Tail, OneBlank, DottedEnd, EndsInSpace, NoComment;
    ConsKinds(TokenOf(u, r).kind, KindsOf(u, rest), TokenOf(u, q).kind, KindsOf(u, Tail(rest)));
  }

  lemma {:induction false} ConsKinds(a: TokenKind, more: Kinds, b: TokenKind, others: Kinds)
    ensures Continued([b], others).Err? <==> others.Err?
    ensures others.Err? && more == others ==> Continued([a], more) == Continued([b], others)
    ensures others.Ok? ==> (Continued([a], more) == Continued([b], others) <==> a == b && more == others)
  {
    if more.Ok? && others.Ok? {
      assert ([a] + more.kinds)[1..] == more.kinds && ([b] + others.kinds)[1..] == others.kinds;
      assert ([a] + more.kinds)[0] == a && ([b] + others.kinds)[0] == b;
    }
  }

  lemma {:induction false} LiteralStart(u: Unicode, r: string)
    requires r != [] && (r[0] == '"' || r[0] == '\'')
    ensures Tail(r) != []
    ensures TokenOf(u, r).Failed? ==> TokenOf(u, Tail(r)) == TokenOf(u, r)
    ensures TokenOf(u, r).Token? ==> TokenOf(u, Tail(r)).Token?
    ensures TokenOf(u, r).Token? ==> SameStart(u, r, TokenOf(u, r).length, TokenOf(u, Tail(r)).length)
  {
    hide *;
    var b := r[1..];
    QuoteIsNoSpace(r[0]);
    TailOfChar(r);
    LiteralTail(r[0], b);
    StringLength(r[0], b);
    StringLength(r[0], Tail(b));
    QuotedStart(u, r);
    QuotedStart(u, Tail(r));
    CorrespondsParts(r[0], b);
    var t, k := StringBody(r[0], b), StringBody(r[0], Tail(b));
    if t.Token? {
      assert r[..t.length + 1] == [r[0]] + b[..t.length];
      OneBlankCons(r[0], b[..t.length]);
      assert r[t.length + 1..] == b[t.length..] && Tail(r)[k.length + 1..] == Tail(b)[k.length..];
      MakeSameStart(u, r, t.length + 1, k.length + 1);
    }
  }

  lemma {:induction false} QuoteIsNoSpace(c: char)
    ensures c == '"' || c == '\'' ==> !IsWhitespace(c)
  {
  }

  lemma {:induction false} QuotedStart(u: Unicode, r: string)
    requires r != [] && (r[0] == '"' || r[0] == '\'')
    ensures var t := StringBody(r[0], r[1..]);
      TokenOf(u, r) == if t.Token? then Token(t.kind, t.length + 1) else t
  {
    hide StringBody;
  }

  lemma {:induction false} MakeSameStart(u: Unicode, r: string, n: nat, k: nat)
    requires n <= |r| && k <= |Tail(r)| && r != [] && Tail(r) != [] && !IsWhitespace(r[0])
    requires TokenOf(u, r).Token? && TokenOf(u, r).length == n && TokenOf(u, r).kind.Str?
    requires TokenOf(u, Tail(r)).Token? && TokenOf(u, Tail(r)).length == k && TokenOf(u, Tail(r)).kind.Str?
    requires Tail(r)[k..] == Tail(r[n..])
    requires TokenOf(u, r).kind.value == TokenOf(u, Tail(r)).kind.value <==> OneBlank(r[..n])
    ensures SameStart(u, r, n, k)
  {
    hide Tail, TokenOf, OneBlank;
  }

  lemma {:induction false} KindsAgree(u: Unicode, r: string)
    requires Sound(u) && NoComment(r)
    ensures Agrees(u, r)
    decreases |r|, if r != [] && IsWhitespace(r[0]) then 1 else 0
  {
    if r == [] {
      EmptyAgrees(u);
    } else if IsWhitespace(r[0]) {
      StripShorter(r);
      StripSuffix(r);
      KindsAgree(u, Strip(r));
      SpaceAgrees(u, r);
    } else if IsDigit(r[0]) && LosesSpace(r) {
      DotJoins(u, r);
    } else {
      if r[0] == '"' || r[0] == '\'' {
        LiteralStart(u, r);
      } else {
        TokenTail(u, r);
      }
      hide Agrees, Tail, TokenOf, KindsOf, LosesSpace;
      NoCommentTail(r);
      if TokenOf(u, r).Failed? {
        TailOfChar(r);
        FailedAgrees(u, r);
      } else {
        TokenLength(u, r);
        var n := TokenOf(u, r).length;
        NoCommentSuffix(r, n);
        KindsAgree(u, r[n..]);
        StepAgrees(u, r, n, TokenOf(u, Tail(r)).length);
      }
    }
  }

  lemma {:induction false} FailedAgrees(u: Unicode, r: string)
    requires NoComment(r) && NoComment(Tail(r)) && r != [] && !IsWhitespace(r[0]) && Tail(r) != [] && Tail(r)[0] == r[0]
    requires TokenOf(u, r).Failed? && TokenOf(u, Tail(r)) == TokenOf(u, r)
    ensures Agrees(u, r)
  {
    hide Tail, TokenOf;
    FailedKinds(u, r);
    FailedKinds(u, Tail(r));
  }

  lemma {:induction false} EmptyKinds(u: Unicode)
    ensures KindsOf(u, []) == Ok([])
  {
  }

  lemma {:induction false} EmptyAgrees(u: Unicode)
    ensures Agrees(u, [])
  {
    KindsStep(u, []);
  }

  lemma {:induction false} StripShorter(r: string)
    requires r != [] && IsWhitespace(r[0])
    ensures |Strip(r)| < |r|
  {
  }

  lemma {:induction false} SpaceAgrees(u: Unicode, r: string)
    requires NoComment(r) && Agrees(u, Strip(r))
    ensures Agrees(u, r)
  {
    StripKinds(u, r);
    if Strip(r) == "" {
      OnlySpaceKinds(u, r);
      NoCommentTail(r);
      TailEmpty(r);
      OnlySpaceKinds(u, Tail(r));
    }
    hide KindsOf, Tail, Strip;
  }

  // ------------------------------------------------------------------------- the key

  /** Without comments, a text and its key have the same token kinds or the same error if and only if the
      key has an error, or no literal holds white space other than single blanks and the text does not end in
      white space behind a dotted number. */
  lemma {:induction false} KeyKeepsKinds(u: Unicode, s: string)
    requires Sound(u) && NoComment(s)
    ensures KindsOf(u, s) == KindsOf(u, Normalize(s)) <==>
      || KindsOf(u, Normalize(s)).Err?
      || (!Spoiled(u, s) && !(EndsInSpace(s) && DottedEnd(KindsOf(u, Normalize(s)))))
  {
    NormalizeIsTail(s);
    KindsAgree(u, s);
    StripKinds(u, s);
    hide KindsOf, Tail, Strip, Normalize, Spoiled;
  }

  lemma {:induction false} DottedMeansDot(u: Unicode, r: string)
    requires NoComment(r) && DottedEnd(KindsOf(u, r)) && !EndsInSpace(r)
    ensures r != "" && r[|r| - 1] == '.'
    decreases |r|
  {
    hide *;
    StripSuffix(r);
    StripEnd(r);
    StripLast(r);
    KindsStep(u, r);
    NothingDotted();
    FailedIsNotDotted(KindsOf(u, r));
    var s := Strip(r);
    if s != [] && TokenOf(u, s).Token? {
      var n := TokenOf(u, s).length;
      NoCommentSuffix(s, n);
      DottedCons(TokenOf(u, s).kind, KindsOf(u, s[n..]));
      EmptyKinds(u);
      FailedIsNotDotted(KindsOf(u, s[n..]));
      if KindsOf(u, s[n..]) == Ok([]) {
        DotAtEnd(u, s);
      } else {
        SameLast(s, n);
        DottedMeansDot(u, s[n..]);
      }
    }
  }

  lemma {:induction false} SameLast(s: string, n: nat)
    requires n <= |s| && s[n..] != []
    ensures s != [] && s[|s| - 1] == s[n..][|s[n..]| - 1] && EndsInSpace(s) == EndsInSpace(s[n..])
  {
  }

  lemma {:induction false} StripLast(r: string)
    ensures Strip(r) != "" ==> r != "" && r[|r| - 1] == Strip(r)[|Strip(r)| - 1]
    decreases |r|
  {
    if r != [] && IsWhitespace(r[0]) {
      StripLast(r[1..]);
    }
  }

  lemma {:induction false} TailEndsInChar(s: string)
    ensures !EndsInSpace(Tail(s))
    decreases |s|
  {
    if s != [] {
      TailEndsInChar(s[1..]);
      if IsWhitespace(s[0]) && |s| > 1 && !IsWhitespace(s[1]) {
        TailOfChar(s[1..]);
      }
    }
  }

  /** In particular when the key does not end in a dot and no literal is spoiled. */
  lemma {:induction false} KeyKeepsKindsWithoutDot(u: Unicode, s: string)
    requires Sound(u) && NoComment(s) && !Spoiled(u, s)
    requires Normalize(s) == "" || Normalize(s)[|Normalize(s)| - 1] != '.'
    ensures KindsOf(u, s) == KindsOf(u, Normalize(s))
  {
    KeyKeepsKinds(u, s);
    NormalizeIsTail(s);
    StripSuffix(s);
    NoCommentTail(Strip(s));
    TailEndsInChar(Strip(s));
    hide KindsOf, Tail, Strip, Normalize, Spoiled;
    if DottedEnd(KindsOf(u, Normalize(s))) {
      DottedMeansDot(u, Normalize(s));
    }
  }

  // --------------------------------------------------------------- texts without quotes

  /** No quotes and no comment marks. */
  ghost predicate Plain(s: string) {
    NoComment(s) && forall i :: 0 <= i < |s| ==> s[i] != '"' && s[i] != '\''
  }

  lemma {:induction false} PlainNotSpoiled(u: Unicode, r: string)
    requires Plain(r)
    ensures !Spoiled(u, r)
    decreases |r|
  {
    StripSuffix(r);
    StripPlain(r);
    var s := Strip(r);
    if s != [] {
      TokenLength(u, s);
      if TokenOf(u, s).Token? {
        NoCommentSuffix(s, TokenOf(u, s).length);
        PlainNotSpoiled(u, s[TokenOf(u, s).length..]);
      }
    }
  }

  lemma {:induction false} StripPlain(r: string)
    requires Plain(r)
    ensures Plain(Strip(r))
    decreases |r|
  {
    if r != [] && IsWhitespace(r[0]) {
      NoCommentSuffix(r, 1);
      StripPlain(r[1..]);
    }
  }
}
