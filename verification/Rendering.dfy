/**
  Writing tokens out and reading them again. Every token has a spelling, and whatever white space and comments
  stand between the spellings, the lexer finds the tokens they were written from.
 */
module Rendering {
  import opened Lexer

  // --------------------------------------------------------------------- spellings

  const OPERATORS: set<string> := {
    "=", "=~", "<", "<>", "<=", "<-", ">", ">=", "+", "+=", "-", "->", "*", "/", "(", ")", "[", "]", "{", "}", ":",
    ",", ".", "|"
  }

  function Digit(d: nat): char
    requires d < 10
  {
    "0123456789"[d]
  }

  function Decimal(n: nat): string {
    if n < 10 then [Digit(n)] else Decimal(n / 10) + [Digit(n % 10)]
  }

  /** How a character is written inside a literal. */
  function Quoted(c: char): string {
    if c == '\n' then "\\n" else if c == '\t' then "\\t" else if c == '\\' then "\\\\"
    else if c == '"' then "\\\"" else if c == '\'' then "\\'" else [c]
  }

  function QuotedAll(v: string): string { if v == "" then "" else Quoted(v[0]) + QuotedAll(v[1..]) }

  function Spelling(kind: TokenKind): string {
    match kind
    case Keyword(spelling) => spelling
    case Ident(name) => name
    case Parameter(name) => "$" + name
    case Int(n) => Decimal(n)
    case Float(text) => text
    case Str(value) => "\"" + QuotedAll(value) + "\""
    case Symbol(text) => text
    case Eof => ""
  }

  ghost predicate AllDigits(s: string) { s != "" && forall i :: 0 <= i < |s| ==> '0' <= s[i] <= '9' }

  ghost predicate AllIdent(u: Unicode, s: string) {
    s != "" && forall i :: 0 <= i < |s| ==> IsIdentPart(u, s[i])
  }

  ghost predicate IsFloat(s: string) {
    exists i :: 0 <= i < |s| && s[i] == '.' && AllDigits(s[..i]) && AllDigits(s[i + 1..])
  }

  /** The tokens that have a spelling: integers up to the largest of 64 bits, the literal operators, names that
      are no keyword in any case, and every string. */
  ghost predicate Writable(u: Unicode, kind: TokenKind) {
    match kind
    case Keyword(s) => s in KEYWORDS && u.upper(s) == s && AllIdent(u, s) && IsIdentStart(s[0])
    case Ident(name) => AllIdent(u, name) && IsIdentStart(name[0]) && u.upper(name) !in KEYWORDS
    case Parameter(name) => AllIdent(u, name)
    case Int(n) => n <= 9_223_372_036_854_775_807
    case Float(text) => IsFloat(text)
    case Str(_) => true
    case Symbol(text) => text in OPERATORS
    case Eof => false
  }

  // ------------------------------------------------------------------ what lies between

  datatype Gap = Space(c: char) | LineComment(body: string) | BlockComment(body: string)

  function GapText(gap: Gap): string {
    match gap
    case Space(c) => [c]
    case LineComment(body) => "//" + body + "\n"
    case BlockComment(body) => "/*" + body + "*/"
  }

  ghost predicate ValidGap(gap: Gap) {
    match gap
    case Space(c) => IsWhitespace(c)
    case LineComment(body) => '\n' !in body
    case BlockComment(body) => forall i :: 0 <= i < |body| - 1 ==> !(body[i] == '*' && body[i + 1] == '/')
  }

  function GapsText(gaps: seq<Gap>): string {
    if gaps == [] then "" else GapText(gaps[0]) + GapsText(gaps[1..])
  }

  ghost predicate ValidGaps(gaps: seq<Gap>) { forall i :: 0 <= i < |gaps| ==> ValidGap(gaps[i]) }

  /** A token, a white space behind it, and more white space and comments. */
  datatype Item = Item(kind: TokenKind, space: char, gaps: seq<Gap>)

  function Render(items: seq<Item>): string {
    if items == [] then ""
    else Spelling(items[0].kind) + [items[0].space] + GapsText(items[0].gaps) + Render(items[1..])
  }

  ghost predicate ValidItem(u: Unicode, item: Item) {
    Writable(u, item.kind) && IsWhitespace(item.space) && ValidGaps(item.gaps)
  }

  function KindsWritten(items: seq<Item>): seq<TokenKind> {
    if items == [] then [] else [items[0].kind] + KindsWritten(items[1..])
  }

  // --------------------------------------------------------------------- operators

  ghost predicate StartsOperator(r: string, t: string) { t in OPERATORS && StartsWith(r, t) }

  /** The longest operator is taken, and an error only when none fits. */
  lemma LongestOperator(r: string)
    requires r != []
    ensures SymbolToken(r).Failed? <==> forall t :: !StartsOperator(r, t)
    ensures SymbolToken(r).Failed? ==> SymbolToken(r).error == UnexpectedChar(r[0])
    ensures SymbolToken(r).Token? ==>
      && SymbolToken(r).kind.Symbol? && StartsOperator(r, SymbolToken(r).kind.text)
      && SymbolToken(r).length == |SymbolToken(r).kind.text|
      && forall t :: StartsOperator(r, t) ==> |t| <= |SymbolToken(r).kind.text|
  {
    SymbolPrefixes(r);
    hide SymbolToken, OPERATORS;
    forall t | StartsOperator(r, t)
      ensures SymbolToken(r).Token? && |t| <= |SymbolToken(r).kind.text|
    {
      OperatorSizes(t);
      assert t == r[..|t|];
      assert |t| == 2 ==> t == [r[0], r[1]];
      assert |t| == 1 ==> t == [r[0]];
    }
    if SymbolToken(r).Token? {
      var t := SymbolToken(r).kind.text;
      assert t == r[..|t|];
      assert StartsOperator(r, t);
    }
  }

  lemma OperatorSizes(t: string)
    requires t in OPERATORS
    ensures 1 <= |t| <= 2
  {
  }

  lemma SymbolPrefixes(r: string)
    requires r != []
    ensures SymbolToken(r) ==
      if |r| > 1 && [r[0], r[1]] in OPERATORS then Token(Symbol([r[0], r[1]]), 2)
      else if [r[0]] in OPERATORS then Token(Symbol([r[0]]), 1)
      else Failed(UnexpectedChar(r[0]))
  {
    OneInOperators(r[0]);
    if |r| > 1 {
      TwoInOperators(r[0], r[1]);
    }
  }

  lemma OneInOperators(c: char)
    ensures [c] in OPERATORS <==> c in "=<>+-*/()[]{}:,.|"
  {
  }

  lemma TwoInOperators(c: char, d: char)
    ensures [c, d] in OPERATORS <==>
      (c == '=' && d == '~') || (c == '<' && d in ">=-") || (c == '>' && d == '=') || (c == '+' && d == '=') ||
      (c == '-' && d == '>')
  {
  }

  // ------------------------------------------------------------- names, numbers, literals

  lemma {:induction false} IdentSpanOf(u: Unicode, s: string, rest: string)
    requires forall i :: 0 <= i < |s| ==> IsIdentPart(u, s[i])
    requires rest != [] && !IsIdentPart(u, rest[0])
    ensures IdentSpan(u, s + rest) == |s|
    decreases |s|
  {
    if s == [] {
      assert s + rest == rest;
    } else {
      assert (s + rest)[1..] == s[1..] + rest;
      IdentSpanOf(u, s[1..], rest);
    }
  }

  lemma {:induction false} DigitSpanOf(s: string, rest: string)
    requires forall i :: 0 <= i < |s| ==> IsDigit(s[i])
    requires rest != [] && !IsDigit(rest[0])
    ensures DigitSpan(s + rest) == |s|
    decreases |s|
  {
    if s == [] {
      assert s + rest == rest;
    } else {
      assert (s + rest)[1..] == s[1..] + rest;
      DigitSpanOf(s[1..], rest);
    }
  }

  lemma {:induction false} DecimalValue(n: nat)
    ensures AllDigits(Decimal(n)) && DigitsValue(Decimal(n)) == n
  {
    if n < 10 {
      assert [Digit(n)][..0] == [];
    } else {
      DecimalValue(n / 10);
      var s := Decimal(n);
      assert s[..|s| - 1] == Decimal(n / 10);
    }
  }

  /** Digits name an integer exactly when it fits in 64 bits. */
  lemma IntScanned(n: nat, c: char, rest: string)
    requires IsWhitespace(c)
    ensures NumberToken(Decimal(n) + [c] + rest) ==
      if n <= 9_223_372_036_854_775_807 then Token(Int(n), |Decimal(n)|) else Failed(InvalidNumber)
  {
    DecimalValue(n);
    var s := Decimal(n);
    var r := s + [c] + rest;
    assert r == s + ([c] + rest);
    DigitSpanOf(s, [c] + rest);
    assert r[..|s|] == s && r[|s|] == c;
  }

  lemma FloatScanned(s: string, c: char, rest: string)
    requires IsWhitespace(c) && IsFloat(s)
    ensures s != "" && IsDigit(s[0]) && NumberToken(s + [c] + rest) == Token(Float(s), |s|)
  {
    hide NumberToken;
    var i :| 0 <= i < |s| && s[i] == '.' && AllDigits(s[..i]) && AllDigits(s[i + 1..]);
    assert s == s[..i] + "." + s[i + 1..];
    assert s[0] == s[..i][0];
    DottedScanned(s[..i], s[i + 1..], c, rest);
  }

  lemma DottedScanned(a: string, b: string, c: char, rest: string)
    requires IsWhitespace(c) && AllDigits(a) && AllDigits(b)
    ensures NumberToken(a + "." + b + [c] + rest) == Token(Float(a + "." + b), |a| + 1 + |b|)
  {
    hide DigitSpan, IntToken, IsWhitespace;
    SpaceIsNoDigit(c);
    var s := a + "." + b;
    var r := s + [c] + rest;
    assert r == a + ("." + b + [c] + rest);
    DigitSpanOf(a, "." + b + [c] + rest);
    assert r[|a| + 1..] == b + ([c] + rest);
    DigitSpanOf(b, [c] + rest);
    assert r[|a|] == '.' && r[|a| + 1] == b[0];
    assert r[..|s|] == s;
  }

  /** A dot behind an integer belongs to it when a digit or nothing follows, and not when a second dot or anything
      else does, so that the bounds of a range are integers. */
  lemma DotScanned(a: string, rest: string)
    requires AllDigits(a)
    ensures rest == "" ==> NumberToken(a + "." + rest) == Token(Float(a + "."), |a| + 1)
    ensures rest != "" && IsDigit(rest[0]) ==>
      NumberToken(a + "." + rest).Token? && NumberToken(a + "." + rest).kind.Float?
    ensures rest != "" && !IsDigit(rest[0]) ==> NumberToken(a + "." + rest) == IntToken(a)
  {
    hide DigitSpan, IntToken;
    var r := a + "." + rest;
    assert r == a + ("." + rest);
    DigitSpanOf(a, "." + rest);
    assert r[|a|] == '.' && r[..|a|] == a && r[|a| + 1..] == rest;
    if rest == "" {
      assert r[..|a| + 1] == a + ".";
      assert DigitSpan(rest) == 0;
    } else {
      assert r[|a| + 1] == rest[0];
    }
  }

  lemma SpaceIsNoDigit(c: char)
    requires IsWhitespace(c)
    ensures !IsDigit(c)
  {
  }

  /** What each escape yields. */
  lemma EscapeYields(quote: char, c: char, r: string)
    requires quote == '"' || quote == '\''
    ensures StringBody(quote, ['\\', c] + r) ==
      match StringBody(quote, r)
      case Token(Str(v), n) =>
        Token(Str((if c == 'n' then "\n" else if c == 't' then "\t" else [c]) + v), n + 2)
      case _ => Failed(UnterminatedString)
  {
    var t := ['\\', c] + r;
    assert t[2..] == r;
    StringLength(quote, r);
  }

  lemma {:induction false} LiteralScanned(quote: char, v: string, r: string)
    requires quote == '"' || quote == '\''
    ensures StringBody(quote, QuotedAll(v) + [quote] + r) == Token(Str(v), |QuotedAll(v)| + 1)
    decreases |v|
  {
    hide StringBody;
    var t := QuotedAll(v) + [quote] + r;
    if v == "" {
      assert t[0] == quote;
      BodyStep(quote, t);
    } else {
      var more := QuotedAll(v[1..]) + [quote] + r;
      LiteralScanned(quote, v[1..], r);
      CharScanned(quote, v[0], more);
      assert t == Quoted(v[0]) + more;
      assert [v[0]] + v[1..] == v;
    }
  }

  lemma CharScanned(quote: char, c: char, r: string)
    requires (quote == '"' || quote == '\'') && StringBody(quote, r).Token?
    ensures StringBody(quote, r).kind.Str? && StringBody(quote, Quoted(c) + r) ==
            Token(Str([c] + StringBody(quote, r).kind.value), |Quoted(c)| + StringBody(quote, r).length)
  {
    hide StringBody;
    StringLength(quote, r);
    var t := Quoted(c) + r;
    if |Quoted(c)| == 1 {
      assert t[0] == c && t[1..] == r;
      BodyStep(quote, t);
    } else {
      assert Quoted(c) == ['\\', Quoted(c)[1]];
      EscapeYields(quote, Quoted(c)[1], r);
    }
  }

  // -------------------------------------------------------------------- one token

  /** A spelling with white space behind it is read as the token it was written from. */
  lemma SpellingScanned(u: Unicode, kind: TokenKind, c: char, rest: string)
    requires Sound(u) && Writable(u, kind) && IsWhitespace(c)
    ensures Spelling(kind) != "" && TokenOf(u, Spelling(kind) + [c] + rest) == Token(kind, |Spelling(kind)|)
  {
    hide NumberToken, StringBody, IdentSpan, DigitSpan, SymbolToken, QuotedAll, Decimal, IsFloat, OPERATORS, KEYWORDS;
    var s := Spelling(kind);
    var r := s + [c] + rest;
    assert r == s + ([c] + rest);
    match kind
    case Keyword(_) => NameScanned(u, s, c, rest);
    case Ident(_) => NameScanned(u, s, c, rest);
    case Parameter(name) =>
      assert r[1..] == name + ([c] + rest);
      IdentSpanOf(u, name, [c] + rest);
      assert r[1..|name| + 1] == name;
    case Int(n) =>
      DecimalValue(n);
      IntScanned(n, c, rest);
    case Float(_) => FloatScanned(s, c, rest);
    case Str(v) =>
      assert r[1..] == QuotedAll(v) + ['"'] + ([c] + rest);
      LiteralScanned('"', v, [c] + rest);
    case Symbol(t) =>
      OperatorIsApart(t);
      SymbolScanned(t, c, rest);
  }

  lemma NameScanned(u: Unicode, s: string, c: char, rest: string)
    requires Sound(u) && AllIdent(u, s) && IsIdentStart(s[0]) && IsWhitespace(c)
    ensures TokenOf(u, s + [c] + rest) == Token(Classify(u, s), |s|)
  {
    hide NumberToken, StringBody, IdentSpan, DigitSpan, SymbolToken, Classify;
    var r := s + [c] + rest;
    assert r == s + ([c] + rest);
    IdentSpanOf(u, s, [c] + rest);
    assert r[..|s|] == s;
  }

  lemma SymbolScanned(t: string, c: char, rest: string)
    requires t in OPERATORS && IsWhitespace(c)
    ensures t != "" && SymbolToken(t + [c] + rest) == Token(Symbol(t), |t|)
  {
    hide OPERATORS, SymbolToken, IsWhitespace;
    var r := t + [c] + rest;
    OperatorStart(t);
    SymbolPrefixes(r);
    NoOperatorEndsInSpace(t[0], c);
    if |t| == 2 {
      assert t == [r[0], r[1]];
    } else {
      assert t == [r[0]] && r[1] == c;
    }
  }

  lemma NoOperatorEndsInSpace(d: char, c: char)
    requires IsWhitespace(c)
    ensures [d, c] !in OPERATORS
  {
    TwoInOperators(d, c);
    hide OPERATORS;
  }

  lemma OperatorStart(t: string)
    requires t in OPERATORS
    ensures 1 <= |t| <= 2 && t[0] in "=<>+-*/()[]{}:,.|" && (t[0] == '/' ==> |t| == 1)
  {
  }

  /** No operator begins like a name, a number, a literal or a parameter. */
  lemma OperatorIsApart(t: string)
    requires t in OPERATORS
    ensures t != "" && !IsIdentStart(t[0]) && !IsDigit(t[0]) && t[0] != '"' && t[0] != '\'' && t[0] != '$'
    ensures !IsWhitespace(t[0]) && (t[0] == '/' ==> |t| == 1)
  {
    OperatorStart(t);
    hide OPERATORS;
  }

  // -------------------------------------------------------------- white space and comments

  lemma {:induction false} LineSpan(body: string, r: string)
    requires '\n' !in body
    ensures LineEnd(body + "\n" + r) == |body|
    decreases |body|
  {
    var t := body + "\n" + r;
    if body != "" {
      assert t[1..] == body[1..] + "\n" + r;
      LineSpan(body[1..], r);
    }
  }

  lemma {:induction false} BlockSpan(body: string, r: string)
    requires ValidGap(BlockComment(body))
    ensures BlockEnd(body + "*/" + r) == |body| + 2
    decreases |body|
  {
    var t := body + "*/" + r;
    if body == "" {
      assert t[..2] == "*/";
    } else {
      assert t[1..] == body[1..] + "*/" + r;
      assert t[..2][0] == body[0] && t[..2][1] == (if |body| > 1 then body[1] else '*');
      BlockSpan(body[1..], r);
    }
  }

  lemma SpaceSkipped(c: char, r: string)
    requires IsWhitespace(c)
    ensures Skip([c] + r) == Skip(r)
  {
    assert ([c] + r)[1..] == r;
  }

  lemma LineSkipped(body: string, r: string)
    requires '\n' !in body
    ensures Skip("//" + body + "\n" + r) == Skip(r)
  {
    hide LineEnd, BlockEnd;
    var line := "//" + body;
    var t := line + "\n" + r;
    LineSpan(line, r);
    assert t[..2] == "//";
    assert t[0] == '/' && t[|line|..] == "\n" + r;
    SpaceSkipped('\n', r);
    assert Skip(t) == Skip(t[LineEnd(t)..]);
  }

  lemma BlockSkipped(body: string, r: string)
    requires ValidGap(BlockComment(body))
    ensures Skip("/*" + body + "*/" + r) == Skip(r)
  {
    hide LineEnd, BlockEnd;
    var t := "/*" + body + "*/" + r;
    assert t[..2] == "/*";
    assert t[0] == '/' && t[1] == '*' && t[2..] == body + "*/" + r;
    BlockSpan(body, r);
    assert t[2 + (|body| + 2)..] == r;
    assert Skip(t) == Skip(t[2 + BlockEnd(t[2..])..]);
  }

  /** A gap leaves no trace. */
  lemma GapSkipped(gap: Gap, r: string)
    requires ValidGap(gap)
    ensures Skip(GapText(gap) + r) == Skip(r)
  {
    hide Skip, IsWhitespace;
    match gap
    case Space(c) => SpaceSkipped(c, r);
    case LineComment(body) => LineSkipped(body, r);
    case BlockComment(body) => BlockSkipped(body, r);
  }

  lemma {:induction false} GapsSkipped(gaps: seq<Gap>, r: string)
    requires ValidGaps(gaps)
    ensures Skip(GapsText(gaps) + r) == Skip(r)
    decreases |gaps|
  {
    hide Skip, ValidGap, GapText;
    if gaps == [] {
      assert GapsText(gaps) + r == r;
    } else {
      GapsSkipped(gaps[1..], r);
      assert GapsText(gaps) + r == GapText(gaps[0]) + (GapsText(gaps[1..]) + r);
      GapSkipped(gaps[0], GapsText(gaps[1..]) + r);
    }
  }

  lemma SameRestSameKinds(u: Unicode, a: string, b: string)
    requires Skip(a) == Skip(b)
    ensures KindsOf(u, a) == KindsOf(u, b)
  {
    hide Skip, TokenOf;
  }

  /** A spelling is neither white space nor the beginning of a comment. */
  lemma SpellingStays(u: Unicode, kind: TokenKind, c: char, rest: string)
    requires Sound(u) && Writable(u, kind) && IsWhitespace(c)
    ensures Skip(Spelling(kind) + [c] + rest) == Spelling(kind) + [c] + rest
  {
    SpellingScanned(u, kind, c, rest);
    SpellingStart(u, kind);
    hide TokenOf, Spelling, Writable;
    var s := Spelling(kind);
    var r := s + [c] + rest;
    assert r[0] == s[0] && r[1] == (if |s| > 1 then s[1] else c);
    assert r[..2][0] == r[0] && r[..2][1] == r[1];
  }

  lemma SpellingStart(u: Unicode, kind: TokenKind)
    requires Sound(u) && Writable(u, kind)
    ensures var s := Spelling(kind);
      s != "" && !IsWhitespace(s[0]) && (s[0] == '/' ==> |s| == 1)
  {
    hide Decimal, KEYWORDS, OPERATORS, QuotedAll;
    match kind
    case Int(n) => DecimalValue(n);
    case Float(s) =>
      var i :| 0 <= i < |s| && s[i] == '.' && AllDigits(s[..i]) && AllDigits(s[i + 1..]);
      assert s[0] == s[..i][0];
    case Symbol(t) => OperatorIsApart(t);
    case _ =>
  }

  // ------------------------------------------------------------------------ whole texts

  /** Whatever white space and comments surround them, the tokens written are the tokens read. */
  lemma {:induction false} RenderRoundTrip(u: Unicode, lead: seq<Gap>, items: seq<Item>)
    requires Sound(u) && ValidGaps(lead) && forall i :: 0 <= i < |items| ==> ValidItem(u, items[i])
    ensures KindsOf(u, GapsText(lead) + Render(items)) == Ok(KindsWritten(items))
    decreases |items|
  {
    hide KindsOf, Skip, TokenOf, Spelling, GapsText, Writable, Sound, ValidGaps, IsWhitespace;
    GapsSkipped(lead, Render(items));
    SameRestSameKinds(u, GapsText(lead) + Render(items), Render(items));
    if items == [] {
      EmptyKinds(u);
    } else {
      var item := items[0];
      assert ValidItem(u, item);
      var rest := GapsText(item.gaps) + Render(items[1..]);
      var s := Spelling(item.kind);
      assert Render(items) == s + [item.space] + rest;
      SpellingStays(u, item.kind, item.space, rest);
      SpellingScanned(u, item.kind, item.space, rest);
      KindsStep(u, Render(items));
      assert Render(items)[|s|..] == [item.space] + rest;
      GapSkipped(Space(item.space), rest);
      SameRestSameKinds(u, [item.space] + rest, rest);
      RenderRoundTrip(u, item.gaps, items[1..]);
    }
  }

  lemma EmptyKinds(u: Unicode)
    ensures KindsOf(u, "") == Ok([])
  {
  }
}
