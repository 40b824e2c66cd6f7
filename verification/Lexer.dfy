/**
  The query lexer. What it does next depends only on the input that remains, so
  its specification is a set of functions on the remaining text; the lexer object
  is proved to follow them. Positions count characters, not bytes.
 */
module Lexer {

  datatype TokenKind =
    | Keyword(spelling: string)
    | Ident(name: string)
    | Parameter(name: string)
    | Int(n: nat)
    | Float(text: string)
    | Str(value: string)
    | Symbol(text: string)
    | Eof

  datatype LexError = UnexpectedChar(c: char) | UnterminatedString | InvalidNumber

  /** A token kind and the number of characters it takes up. */
  datatype Scan = Token(kind: TokenKind, length: nat) | Failed(error: LexError)

  datatype Kinds = Ok(kinds: seq<TokenKind>) | Err(error: LexError)

  /** The parts of Unicode the lexer consults beyond ASCII. */
  datatype Unicode = Unicode(alphanumeric: char -> bool, upper: string -> string)

  // --------------------------------------------------------------- characters

  predicate IsWhitespace(c: char) {
    '\t' <= c <= '\r' || c == ' ' || c == '\U{85}' || c == '\U{A0}' || c == '\U{1680}' ||
    '\U{2000}' <= c <= '\U{200A}' || c == '\U{2028}' || c == '\U{2029}' || c == '\U{202F}' ||
    c == '\U{205F}' || c == '\U{3000}'
  }

  predicate IsDigit(c: char) { '0' <= c <= '9' }

  predicate IsLetter(c: char) { 'a' <= c <= 'z' || 'A' <= c <= 'Z' }

  predicate IsIdentStart(c: char) { IsLetter(c) || c == '_' }

  predicate IsIdentPart(u: Unicode, c: char) {
    IsLetter(c) || IsDigit(c) || c == '_' || (c >= '\U{80}' && u.alphanumeric(c))
  }

  /** No white space is alphanumeric. */
  ghost predicate Sound(u: Unicode) {
    forall c :: u.alphanumeric(c) ==> !IsWhitespace(c)
  }

  // -------------------------------------------------- the specification functions

  /** The length of the longest prefix of identifier characters. */
  function IdentSpan(u: Unicode, r: string): (n: nat)
    ensures n <= |r|
  {
    if r != [] && IsIdentPart(u, r[0]) then 1 + IdentSpan(u, r[1..]) else 0
  }

  function DigitSpan(r: string): (n: nat)
    ensures n <= |r| && forall i :: 0 <= i < n ==> IsDigit(r[i])
    ensures n < |r| ==> !IsDigit(r[n])
  {
    if r != [] && IsDigit(r[0]) then 1 + DigitSpan(r[1..]) else 0
  }

  function DigitsValue(s: string): nat
    requires forall i :: 0 <= i < |s| ==> IsDigit(s[i])
  {
    if s == [] then 0
    else
      assert IsDigit(s[|s| - 1]);
      DigitsValue(s[..|s| - 1]) * 10 + (s[|s| - 1] as int - '0' as int)
  }

  const MAX_I64 := 0x7fff_ffff_ffff_ffff

  const KEYWORDS: set<string> := {
    "CREATE", "MATCH", "WHERE", "RETURN", "DELETE", "SET", "DETACH", "AND", "OR", "NOT", "TRUE", "FALSE", "NULL",
    "ORDER", "BY", "ASC", "DESC", "LIMIT", "SKIP", "DISTINCT", "NULLS", "FIRST", "LAST", "OPTIONAL", "WITH", "AS",
    "CASE", "WHEN", "THEN", "ELSE", "END", "UNION", "ALL", "MERGE", "REMOVE", "UNWIND", "ON", "CONSTRAINT",
    "REQUIRE", "UNIQUE", "SHOW", "DROP", "FOR", "FOREACH", "IS", "EXPLAIN", "PROFILE", "CONTAINS", "FULLTEXT",
    "INDEX", "USER", "PASSWORD", "ROLE", "ALTER", "STARTS", "ENDS", "NORMALIZED", "IN", "CALL", "YIELD"
  }

  /** Keywords are recognised regardless of case. */
  function Classify(u: Unicode, ident: string): TokenKind {
    if u.upper(ident) in KEYWORDS then Keyword(u.upper(ident)) else Ident(ident)
  }

  function IntToken(digits: string): Scan
    requires forall i :: 0 <= i < |digits| ==> IsDigit(digits[i])
  {
    if DigitsValue(digits) <= MAX_I64 then Token(Int(DigitsValue(digits)), |digits|) else Failed(InvalidNumber)
  }

  /** A dot behind the digits belongs to the number when a digit follows it, or when nothing follows it at all. */
  predicate TakesDot(r: string) {
    var i := DigitSpan(r);
    i < |r| && r[i] == '.' && (i + 1 == |r| || IsDigit(r[i + 1]))
  }

  function NumberToken(r: string): Scan {
    var i := DigitSpan(r);
    if TakesDot(r) then
      var j := i + 1 + DigitSpan(r[i + 1..]);
      Token(Float(r[..j]), j)
    else
      IntToken(r[..i])
  }

  /** The character behind a backslash stands for a line break, a tab or itself. */
  function Escaped(c: char): char { if c == 'n' then '\n' else if c == 't' then '\t' else c }

  /** The text of a string literal after its opening quote: its value and length up to and including the closing
      quote. */
  function StringBody(quote: char, r: string): Scan {
    if r == [] then Failed(UnterminatedString)
    else if r[0] == quote then Token(Str(""), 1)
    else if r[0] == '\\' then
      if |r| == 1 then Failed(UnterminatedString)
      else
        match StringBody(quote, r[2..])
        case Token(Str(v), n) => Token(Str([Escaped(r[1])] + v), n + 2)
        case other => Failed(UnterminatedString)
    else
      match StringBody(quote, r[1..])
      case Token(Str(v), n) => Token(Str([r[0]] + v), n + 1)
      case other => Failed(UnterminatedString)
  }

  /** A token of one character, or of two when one of the given characters follows. */
  function OperatorToken(r: string, second: string): Scan
    requires r != []
  {
    if |r| > 1 && r[1] in second then Token(Symbol([r[0], r[1]]), 2) else Token(Symbol([r[0]]), 1)
  }

  lemma SymbolCases(r: string)
    requires r != []
    ensures r[0] == '=' ==> SymbolToken(r) == OperatorToken(r, "~")
    ensures r[0] == '<' ==> SymbolToken(r) == OperatorToken(r, ">=-")
    ensures r[0] == '>' || r[0] == '+' ==> SymbolToken(r) == OperatorToken(r, "=")
    ensures r[0] == '-' ==> SymbolToken(r) == OperatorToken(r, ">")
    ensures r[0] != '=' && r[0] != '<' && r[0] != '>' && r[0] != '+' && r[0] != '-' ==>
      SymbolToken(r) == if r[0] in "*/()[]{}:,.|" then Token(Symbol([r[0]]), 1) else Failed(UnexpectedChar(r[0]))
  {
    assert "=<>+-*/()[]{}:,.|" == ['=', '<', '>', '+', '-'] + "*/()[]{}:,.|";
  }

  /** Two-character operators are taken before their one-character prefixes. */
  function SymbolToken(r: string): Scan
    requires r != []
  {
    var c := r[0];
    var d := if |r| > 1 then r[1] else ' ';
    if (c == '=' && d == '~') || (c == '<' && d in ">=-") || (c == '>' && d == '=') || (c == '+' && d == '=') ||
       (c == '-' && d == '>')
    then Token(Symbol([c, d]), 2)
    else if c in "=<>+-*/()[]{}:,.|" then Token(Symbol([c]), 1)
    else Failed(UnexpectedChar(c))
  }

  function TokenOf(u: Unicode, r: string): Scan
    requires r != []
  {
    var c := r[0];
    if IsIdentStart(c) then Token(Classify(u, r[..IdentSpan(u, r)]), IdentSpan(u, r))
    else if IsDigit(c) then NumberToken(r)
    else if c == '"' || c == '\'' then QuotedToken(r)
    else if c == '$' then
      var n := IdentSpan(u, r[1..]);
      if n == 0 then Failed(UnexpectedChar('$')) else Token(Parameter(r[1..n + 1]), n + 1)
    else SymbolToken(r)
  }

  predicate StartsWith(r: string, prefix: string) {
    |prefix| <= |r| && r[..|prefix|] == prefix
  }

  /** Behind the end of the current line. */
  function LineEnd(r: string): (n: nat)
    ensures n <= |r|
  {
    if r == [] || r[0] == '\n' then 0 else 1 + LineEnd(r[1..])
  }

  /** Behind the first end-of-comment mark, or the end of the text if there is none. */
  function BlockEnd(r: string): (n: nat)
    ensures n <= |r|
  {
    if r == [] then 0 else if StartsWith(r, "*/") then 2 else 1 + BlockEnd(r[1..])
  }

  /** What remains behind white space and comments. */
  function Skip(r: string): (rest: string)
    ensures |rest| <= |r|
    decreases |r|
  {
    if r != [] && IsWhitespace(r[0]) then Skip(r[1..])
    else if StartsWith(r, "//") then Skip(r[LineEnd(r)..])
    else if StartsWith(r, "/*") then Skip(r[2 + BlockEnd(r[2..])..])
    else r
  }

  lemma {:induction false} TokenLength(u: Unicode, r: string)
    requires r != []
    ensures TokenOf(u, r).Token? ==> 1 <= TokenOf(u, r).length <= |r| && !TokenOf(u, r).kind.Eof?
  {
    if r[0] == '"' || r[0] == '\'' {
      StringLength(r[0], r[1..]);
    }
  }

  lemma {:induction false} StringLength(quote: char, r: string)
    ensures StringBody(quote, r).Token? ==> StringBody(quote, r).kind.Str? && 1 <= StringBody(quote, r).length <= |r|
    ensures StringBody(quote, r).Failed? ==> StringBody(quote, r).error == UnterminatedString
    decreases |r|
  {
    if r != [] && r[0] != quote {
      if r[0] != '\\' {
        StringLength(quote, r[1..]);
      } else if |r| > 1 {
        StringLength(quote, r[2..]);
      }
    }
  }

  /** The token kinds of the remaining text, the end mark left out. */
  function KindsOf(u: Unicode, r: string): Kinds
    decreases |r|
  {
    var s := Skip(r);
    if s == [] then Ok([])
    else
      TokenLength(u, s);
      match TokenOf(u, s)
      case Failed(e) => Err(e)
      case Token(kind, n) =>
        match KindsOf(u, s[n..])
        case Ok(more) => Ok([kind] + more)
        case Err(e) => Err(e)
  }

  // ------------------------------------------------------------- the lexer object

  function Newlines(s: string): nat {
    if s == [] then 0 else Newlines(s[..|s| - 1]) + (if s[|s| - 1] == '\n' then 1 else 0)
  }

  function ColumnAfter(s: string): nat {
    if s == [] || s[|s| - 1] == '\n' then 1 else ColumnAfter(s[..|s| - 1]) + 1
  }

  datatype TokenResult = Found(kind: TokenKind, start: nat, end: nat, line: nat, column: nat)
                       | Error(error: LexError, line: nat, column: nat)

  class Lexer {
    const u: Unicode
    const input: string
    var pos: nat
    var line: nat
    var column: nat

    /** Line and column are those of the current position. */
    ghost predicate Valid()
      reads this
    {
      pos <= |input| && line == 1 + Newlines(input[..pos]) && column == ColumnAfter(input[..pos])
    }

    function Rest(): string
      requires pos <= |input|
      reads this
    {
      input[pos..]
    }

    constructor (u: Unicode, input: string)
      ensures this.u == u && this.input == input && Valid() && Rest() == input
    {
      this.u, this.input, pos, line, column := u, input, 0, 1, 1;
    }

    method Advance()
      requires Valid()
      modifies this
      ensures Valid() && pos == if old(pos) < |input| then old(pos) + 1 else old(pos)
    {
      if pos < |input| {
        var ch := input[pos];
        assert input[..pos + 1][..pos] == input[..pos];
        pos := pos + 1;
        if ch == '\n' {
          line, column := line + 1, 1;
        } else {
          column := column + 1;
        }
      }
    }

    method SkipWhitespace()
      requires Valid()
      modifies this
      ensures Valid() && Rest() == Skip(old(Rest()))
    {
      ghost var start := Rest();
      while true
        invariant Valid() && Skip(Rest()) == Skip(start)
        decreases |input| - pos
      {
        ghost var here := Rest();
        while pos < |input| && IsWhitespace(input[pos])
          invariant Valid() && Skip(Rest()) == Skip(start) && |Rest()| <= |here|
          decreases |input| - pos
        {
          assert Rest()[1..] == input[pos + 1..];
          Advance();
        }
        if StartsWith(Rest(), "//") {
          ghost var comment := Rest();
          SkipLine();
          LineComment(comment);
        } else if StartsWith(Rest(), "/*") {
          ghost var comment := Rest();
          SkipBlock();
        } else {
          return;
        }
      }
    }

    method SkipLine()
      requires Valid()
      modifies this
      ensures Valid() && Rest() == old(Rest())[LineEnd(old(Rest()))..]
    {
      ghost var start := Rest();
      while pos < |input| && input[pos] != '\n'
        invariant Valid() && |Rest()| <= |start| && Rest()[LineEnd(Rest())..] == start[LineEnd(start)..]
        decreases |input| - pos
      {
        assert Rest()[1..] == input[pos + 1..];
        Advance();
      }
    }

    method SkipBlock()
      requires Valid() && StartsWith(Rest(), "/*")
      modifies this
      ensures Valid() && Rest() == old(Rest())[2 + BlockEnd(old(Rest())[2..])..]
      ensures pos > old(pos)
    {
      ghost var start := Rest();
      Advance();
      Advance();
      assert Rest() == start[2..];
      ghost var body := Rest();
      while pos < |input| && !StartsWith(input[pos..], "*/")
        invariant Valid() && pos >= old(pos) + 2 && Rest()[BlockEnd(Rest())..] == body[BlockEnd(body)..]
        decreases |input| - pos
      {
        assert Rest()[1..] == input[pos + 1..];
        Advance();
      }
      ghost var mark := Rest();
      assert mark != [] ==> BlockEnd(mark) == 2;
      Advance();
      Advance();
      assert Rest() == mark[BlockEnd(mark)..];
      assert start[2..][BlockEnd(start[2..])..] == start[2 + BlockEnd(start[2..])..];
    }

    method ReadIdentChars() returns (text: string)
      requires Valid()
      modifies this
      ensures Valid() && text == old(Rest())[..IdentSpan(u, old(Rest()))]
      ensures pos == old(pos) + |text|
    {
      ghost var first := Rest();
      var start := pos;
      while pos < |input| && IsIdentPart(u, input[pos])
        invariant Valid() && start <= pos && pos - start + IdentSpan(u, Rest()) == IdentSpan(u, first)
        decreases |input| - pos
      {
        assert Rest()[1..] == input[pos + 1..];
        Advance();
      }
      text := input[start..pos];
    }

    /** Move behind the digits of a number and a dot that belongs to it. */
    method PassNumber() returns (hasDot: bool)
      requires Valid()
      modifies this
      ensures Valid() && old(pos) <= pos && NumberSoFar(old(Rest()), pos - old(pos), hasDot)
      ensures pos < |input| ==> !IsDigit(input[pos])
      ensures pos < |input| && !hasDot ==> !(input[pos] == '.' && (pos + 1 == |input| || IsDigit(input[pos + 1])))
    {
      hide Newlines, ColumnAfter, NumberSoFar, IsDigit;
      ghost var first := Rest();
      ghost var start := pos;
      hasDot := false;
      NumberStart(first);
      while pos < |input|
        invariant Valid() && start == old(pos) <= pos
        invariant NumberSoFar(first, pos - start, hasDot)
        decreases |input| - pos
      {
        NumberStep(first, pos - start, hasDot);
        if IsDigit(input[pos]) {
          Advance();
        } else if input[pos] == '.' && !hasDot {
          if pos + 1 < |input| && input[pos + 1] == '.' {
            break;
          }
          if pos + 1 < |input| && !IsDigit(input[pos + 1]) {
            break;
          }
          hasDot := true;
          Advance();
        } else {
          break;
        }
      }
    }

    method ReadNumber() returns (r: Scan)
      requires Valid() && Rest() != [] && IsDigit(Rest()[0])
      modifies this
      ensures Valid() && r == NumberToken(old(Rest()))
      ensures r.Token? ==> pos == old(pos) + r.length
    {
      hide Newlines, ColumnAfter, NumberToken, NumberSoFar, DigitsValue;
      ghost var first := Rest();
      var start := pos;
      var hasDot := PassNumber();
      NumberEnds(first, pos - start, hasDot);
      var text := input[start..pos];
      assert text == first[..pos - start];
      if hasDot {
        r := Token(Float(text), |text|);
      } else if DigitsValue(text) <= MAX_I64 {
        r := Token(Int(DigitsValue(text)), |text|);
      } else {
        r := Failed(InvalidNumber);
      }
    }

    method ReadString() returns (r: Scan)
      requires Valid() && Rest() != []
      modifies this
      ensures Valid() && r == QuotedToken(old(Rest()))
      ensures r.Token? ==> pos == old(pos) + r.length
    {
      hide Newlines, ColumnAfter, StringBody, StringSoFar;
      var start, quote, value := pos, input[pos], "";
      ghost var body := Rest()[1..];
      Advance();
      assert Rest() == body;
      StringStart(quote, body);
      while true
        invariant Valid() && start < pos && StringSoFar(quote, body, value, pos - start - 1)
        invariant forall k :: start < k < |input| ==> input[k] == body[k - start - 1]
        decreases |input| - pos
      {
        StringStep(quote, body, value, pos - start - 1);
        if pos == |input| {
          return Failed(UnterminatedString);
        }
        if input[pos] == quote {
          Advance();
          return Token(Str(value), pos - start);
        }
        if input[pos] == '\\' {
          Advance();
          if pos == |input| {
            return Failed(UnterminatedString);
          }
          value := value + [Escaped(input[pos])];
          Advance();
        } else {
          value := value + [input[pos]];
          Advance();
        }
      }
    }

    /** The branches of `next_token` behind white space. */
    method ReadToken() returns (scan: Scan)
      requires Valid() && Rest() != []
      modifies this
      ensures Valid() && scan == TokenOf(u, old(Rest()))
      ensures scan.Token? ==> pos == old(pos) + scan.length
    {
      hide Newlines, ColumnAfter, NumberToken, StringBody, IdentSpan;
      ghost var s := Rest();
      var ch := input[pos];
      if IsIdentStart(ch) {
        var text := ReadIdentChars();
        scan := Token(Classify(u, text), |text|);
      } else if IsDigit(ch) {
        scan := ReadNumber();
      } else if ch == '"' || ch == '\'' {
        scan := ReadString();
      } else if ch == '$' {
        Advance();
        assert Rest() == s[1..];
        var name := ReadIdentChars();
        scan := if name == "" then Failed(UnexpectedChar('$')) else Token(Parameter(name), |name| + 1);
        assert name == s[1..][..|name|] && s[1..][..|name|] == s[1..|name| + 1];
      } else {
        scan := ReadSymbol();
      }
    }

    /** The branches for operators and punctuation. */
    method ReadSymbol() returns (scan: Scan)
      requires Valid() && Rest() != []
      modifies this
      ensures Valid() && scan == SymbolToken(old(Rest()))
      ensures scan.Token? ==> pos == old(pos) + scan.length
    {
      hide Newlines, ColumnAfter, SymbolToken;
      ghost var r := Rest();
      var ch := input[pos];
      SymbolCases(r);
      match ch
      case '=' => scan := ReadOperator("~");
      case '<' => scan := ReadOperator(">=-");
      case '>' => scan := ReadOperator("=");
      case '+' => scan := ReadOperator("=");
      case '-' => scan := ReadOperator(">");
      case _ =>
        if ch in "*/()[]{}:,.|" {
          Advance();
          scan := Token(Symbol([ch]), 1);
        } else {
          scan := Failed(UnexpectedChar(ch));
        }
    }

    /** An operator of one character, or of two when one of the given characters follows. */
    method ReadOperator(second: string) returns (scan: Scan)
      requires Valid() && Rest() != []
      modifies this
      ensures Valid() && scan.Token? && pos == old(pos) + scan.length
      ensures scan == OperatorToken(old(Rest()), second)
    {
      hide Newlines, ColumnAfter;
      var ch := input[pos];
      Advance();
      if pos < |input| && input[pos] in second {
        var next := input[pos];
        Advance();
        return Token(Symbol([ch, next]), 2);
      }
      scan := Token(Symbol([ch]), 1);
    }

    /** Spans hold the start and end position of the token; errors the place where it began. */
    method NextToken() returns (r: TokenResult)
      requires Valid()
      modifies this
      ensures Valid()
      ensures var s := Skip(old(Rest()));
        if s == [] then r.Found? && r.kind == Eof && pos == |input| && r.end == pos
        else match TokenOf(u, s)
             case Token(kind, n) =>
               r.Found? && r.kind == kind && n <= |s| && Rest() == s[n..] && r.end == pos && r.start + n == pos
             case Failed(e) => r.Error? && r.error == e
      ensures var start := |input| - |Skip(old(Rest()))|;
        && (r.Found? ==> r.start == start)
        && r.line == 1 + Newlines(input[..start]) && r.column == ColumnAfter(input[..start])
    {
      hide Newlines, ColumnAfter, TokenOf, Skip;
      SkipWhitespace();
      var start, line0, column0 := pos, line, column;
      if pos == |input| {
        return Found(Eof, start, start, line0, column0);
      }
      ghost var s := Rest();
      TokenLength(u, s);
      var scan := ReadToken();
      match scan
      case Token(kind, n) =>
        assert Rest() == s[n..];
        r := Found(kind, start, pos, line0, column0);
      case Failed(e) =>
        r := Error(e, line0, column0);
    }

    /** All tokens up to and including the end mark, or the first error. The kinds are those of the text, every
        token stands where its span says with nothing but white space and comments before it, and an error is
        placed where the token that fails begins. */
    method Tokenize() returns (r: Tokens)
      requires Valid()
      modifies this
      ensures match KindsOf(u, old(Rest()))
        case Ok(kinds) => r.Tokens? && KindsIn(r.tokens) == kinds + [Eof]
        case Err(e) => r.Failure? && r.error == e
      ensures r.Tokens? ==> forall i :: 0 <= i < |r.tokens| ==> Placed(u, input, r.tokens[i])
      ensures r.Tokens? ==> Adjoining(input, old(pos), r.tokens)
      ensures r.Failure? ==>
        var start := |input| - |FirstFailure(u, old(Rest()))|;
        && 0 <= start < |input| && TokenOf(u, input[start..]) == Failed(r.error)
        && r.line == 1 + Newlines(input[..start]) && r.column == ColumnAfter(input[..start])
    {
      hide Newlines, ColumnAfter, TokenOf, Skip, KindsOf, Placed, FirstFailure, Adjoining;
      NothingAdjoins(input, pos);
      ghost var text := Rest();
      var tokens: seq<TokenResult> := [];
      NothingBefore(KindsOf(u, text));
      while true
        invariant Valid() && Continued(KindsIn(tokens), KindsOf(u, Rest())) == KindsOf(u, text)
        invariant forall i :: 0 <= i < |tokens| ==> Placed(u, input, tokens[i])
        invariant Adjoining(input, old(pos), tokens) && pos == End(old(pos), tokens)
        invariant KindsOf(u, text).Err? ==> KindsOf(u, Rest()).Err? && FirstFailure(u, Rest()) == FirstFailure(u, text)
        decreases |input| - pos
      {
        ghost var s, before := Skip(Rest()), Rest();
        KindsStep(u, Rest());
        if KindsOf(u, text).Err? {
          FailureStep(u, Rest());
        }
        SkipIsSuffix(Rest());
        assert input[|input| - |s|..] == s by {
          assert before[|before| - |s|..] == input[|input| - |s|..];
        }
        var token := NextToken();
        match token
        case Error(e, line, column) =>
          return Failure(e, line, column);
        case Found(kind, _, _, _, _) =>
          FoundIsPlaced(u, input, before, token);
          AdjoinsNext(input, old(pos), tokens, token);
          KindsInMore(tokens, token);
          if s != [] {
            ContinueBy(KindsIn(tokens), kind, KindsOf(u, Rest()));
          }
          tokens := tokens + [token];
          if kind == Eof {
            return Tokens(tokens);
          }
      }
    }
  }

  datatype Tokens = Tokens(tokens: seq<TokenResult>) | Failure(error: LexError, line: nat, column: nat)

  function KindsIn(tokens: seq<TokenResult>): seq<TokenKind> {
    if tokens == [] then []
    else
      var t := tokens[|tokens| - 1];
      KindsIn(tokens[..|tokens| - 1]) + (if t.Found? then [t.kind] else [])
  }

  lemma KindsInMore(tokens: seq<TokenResult>, t: TokenResult)
    requires t.Found?
    ensures KindsIn(tokens + [t]) == KindsIn(tokens) + [t.kind]
  {
    assert (tokens + [t])[..|tokens|] == tokens;
  }

  /** The span covers exactly the token, and line and column are those of its start. */
  ghost predicate Placed(u: Unicode, input: string, t: TokenResult) {
    && t.Found? && t.start <= t.end <= |input|
    && t.line == 1 + Newlines(input[..t.start]) && t.column == ColumnAfter(input[..t.start])
    && if t.start == |input| then t.kind == Eof
       else TokenOf(u, input[t.start..]) == Token(t.kind, t.end - t.start)
  }

  /** Where the text behind the tokens begins. */
  function End(start: nat, tokens: seq<TokenResult>): nat {
    if tokens != [] && tokens[|tokens| - 1].Found? then tokens[|tokens| - 1].end else start
  }

  /** Each token begins behind the white space and comments that follow the one before. */
  ghost predicate Adjoining(input: string, start: nat, tokens: seq<TokenResult>) {
    forall i :: 0 <= i < |tokens| ==>
      var behind := End(start, tokens[..i]);
      tokens[i].Found? && behind <= |input| && tokens[i].start == |input| - |Skip(input[behind..])|
  }

  lemma NothingAdjoins(input: string, start: nat)
    ensures Adjoining(input, start, [])
  {
  }

  lemma AdjoinsNext(input: string, start: nat, tokens: seq<TokenResult>, t: TokenResult)
    requires Adjoining(input, start, tokens) && t.Found? && End(start, tokens) <= |input|
    requires t.start == |input| - |Skip(input[End(start, tokens)..])|
    ensures Adjoining(input, start, tokens + [t]) && End(start, tokens + [t]) == t.end
  {
    hide Skip;
    var more := tokens + [t];
    forall i | 0 <= i < |more|
      ensures var behind := End(start, more[..i]);
        more[i].Found? && behind <= |input| && more[i].start == |input| - |Skip(input[behind..])|
    {
      assert more[..i] == if i < |tokens| then tokens[..i] else tokens;
    }
  }

  /** The text from the first token that cannot be read. */
  ghost function FirstFailure(u: Unicode, r: string): (s: string)
    requires KindsOf(u, r).Err?
    ensures s != [] && TokenOf(u, s) == Failed(KindsOf(u, r).error)
    decreases |r|
  {
    KindsStep(u, r);
    if TokenOf(u, Skip(r)).Failed? then Skip(r) else FirstFailure(u, Skip(r)[TokenOf(u, Skip(r)).length..])
  }

  lemma FailureStep(u: Unicode, r: string)
    requires KindsOf(u, r).Err?
    ensures Skip(r) != []
    ensures TokenOf(u, Skip(r)).Failed? ==> FirstFailure(u, r) == Skip(r)
    ensures TokenOf(u, Skip(r)).Token? ==>
      var n := TokenOf(u, Skip(r)).length;
      n <= |Skip(r)| && KindsOf(u, Skip(r)[n..]).Err? && FirstFailure(u, r) == FirstFailure(u, Skip(r)[n..])
  {
    KindsStep(u, r);
    hide KindsOf, TokenOf, Skip;
  }

  lemma FoundIsPlaced(u: Unicode, input: string, r: string, t: TokenResult)
    requires |r| <= |input| && input[|input| - |r|..] == r && t.Found?
    requires var start := |input| - |Skip(r)|;
      t.start == start && t.line == 1 + Newlines(input[..start]) && t.column == ColumnAfter(input[..start])
    requires if Skip(r) == [] then t.kind == Eof && t.end == |input|
             else t.start <= t.end <= |input| && TokenOf(u, Skip(r)) == Token(t.kind, t.end - t.start)
    ensures Placed(u, input, t)
  {
    SkipIsSuffix(r);
    hide Skip, TokenOf, Newlines, ColumnAfter;
    assert input[t.start..] == Skip(r) by {
      assert r[|r| - |Skip(r)|..] == input[t.start..];
    }
  }

  lemma {:induction false} SkipIsSuffix(r: string)
    ensures Skip(r) == r[|r| - |Skip(r)|..]
    decreases |r|
  {
    if r != [] && IsWhitespace(r[0]) {
      SkipIsSuffix(r[1..]);
    } else if StartsWith(r, "//") {
      LineComment(r);
      SkipIsSuffix(r[LineEnd(r)..]);
    } else if StartsWith(r, "/*") {
      SkipIsSuffix(r[2 + BlockEnd(r[2..])..]);
    }
  }

  // -------------------------------------------------- steps of the specification

  /** What has been read of a number: digits, or digits with a dot that belongs to it and more digits. */
  ghost predicate NumberSoFar(r: string, k: nat, hasDot: bool) {
    var i := DigitSpan(r);
    && k <= |r|
    && (!hasDot ==> k + DigitSpan(r[k..]) == i)
    && (hasDot ==> i < k && r[i] == '.' && (i + 1 == |r| || IsDigit(r[i + 1])) &&
                   k + DigitSpan(r[k..]) == i + 1 + DigitSpan(r[i + 1..]))
  }

  lemma NumberStart(r: string)
    ensures NumberSoFar(r, 0, false)
  {
    assert r[0..] == r;
  }

  lemma {:induction false} NumberStep(r: string, k: nat, hasDot: bool)
    requires NumberSoFar(r, k, hasDot) && k < |r|
    ensures IsDigit(r[k]) ==> NumberSoFar(r, k + 1, hasDot)
    ensures !IsDigit(r[k]) && r[k] == '.' && !hasDot && (k + 1 == |r| || IsDigit(r[k + 1])) ==>
      NumberSoFar(r, k + 1, true)
  {
    assert r[k..][1..] == r[k + 1..];
  }

  lemma {:induction false} NumberEnds(r: string, k: nat, hasDot: bool)
    requires NumberSoFar(r, k, hasDot)
    ensures hasDot && (k < |r| ==> !IsDigit(r[k])) ==> NumberToken(r) == Token(Float(r[..k]), k)
    ensures !hasDot && (k < |r| ==> !IsDigit(r[k]) && !(r[k] == '.' && (k + 1 == |r| || IsDigit(r[k + 1])))) ==>
      (forall i :: 0 <= i < k ==> IsDigit(r[i])) && NumberToken(r) == IntToken(r[..k])
  {
  }

  /** A quoted literal together with its opening quote. */
  function QuotedToken(r: string): Scan
    requires r != []
  {
    match StringBody(r[0], r[1..])
    case Token(kind, n) => Token(kind, n + 1)
    case Failed(e) => Failed(e)
  }

  /** A string scan seen from `length` characters earlier, with `value` already read. */
  function Prefixed(value: string, length: nat, scan: Scan): Scan {
    match scan
    case Token(Str(v), n) => Token(Str(value + v), length + n)
    case other => other
  }

  lemma PrefixedTwice(a: string, b: string, j: nat, k: nat, scan: Scan)
    ensures Prefixed(a, j, Prefixed(b, k, scan)) == Prefixed(a + b, j + k, scan)
  {
    match scan
    case Token(Str(v), n) => assert a + (b + v) == (a + b) + v;
    case other =>
  }

  /** After k characters of the literal's text, `value` has been read. */
  ghost predicate StringSoFar(quote: char, body: string, value: string, k: nat) {
    k <= |body| && Prefixed(value, k, StringBody(quote, body[k..])) == StringBody(quote, body)
  }

  lemma StringStart(quote: char, body: string)
    ensures StringSoFar(quote, body, "", 0)
  {
    StringLength(quote, body);
    assert body[0..] == body;
    if StringBody(quote, body).Token? {
      assert "" + StringBody(quote, body).kind.value == StringBody(quote, body).kind.value;
    }
  }

  lemma StringStep(quote: char, body: string, value: string, k: nat)
    requires StringSoFar(quote, body, value, k)
    ensures k == |body| ==> StringBody(quote, body) == Failed(UnterminatedString)
    ensures k < |body| && body[k] == quote ==> StringBody(quote, body) == Token(Str(value), k + 1)
    ensures k < |body| && body[k] != quote && body[k] == '\\' ==>
      if k + 1 == |body| then StringBody(quote, body) == Failed(UnterminatedString)
      else StringSoFar(quote, body, value + [Escaped(body[k + 1])], k + 2)
    ensures k < |body| && body[k] != quote && body[k] != '\\' ==>
      StringSoFar(quote, body, value + [body[k]], k + 1)
  {
    hide StringBody, Escaped;
    var r := body[k..];
    BodyStep(quote, r);
    if k < |body| && body[k] == quote {
      assert r[0] == quote && value + "" == value;
    } else if k < |body| && body[k] != '\\' {
      assert r[0] == body[k] && r[1..] == body[k + 1..];
      PrefixedTwice(value, [body[k]], k, 1, StringBody(quote, body[k + 1..]));
    } else if k + 1 < |body| {
      assert r[0] == body[k] && r[1] == body[k + 1] && r[2..] == body[k + 2..];
      PrefixedTwice(value, [Escaped(body[k + 1])], k, 2, StringBody(quote, body[k + 2..]));
    } else if k < |body| {
      assert r == [body[k]];
    }
  }

  lemma {:induction false} BodyStep(quote: char, r: string)
    ensures r == [] ==> StringBody(quote, r) == Failed(UnterminatedString)
    ensures r != [] && r[0] == quote ==> StringBody(quote, r) == Token(Str(""), 1)
    ensures r != [] && r[0] != quote && r[0] != '\\' ==>
      StringBody(quote, r) == Prefixed([r[0]], 1, StringBody(quote, r[1..]))
    ensures r != [] && r[0] != quote && r[0] == '\\' ==>
      StringBody(quote, r) ==
        if |r| == 1 then Failed(UnterminatedString) else Prefixed([Escaped(r[1])], 2, StringBody(quote, r[2..]))
  {
    if |r| >= 1 {
      StringLength(quote, r[1..]);
    }
    if |r| >= 2 {
      StringLength(quote, r[2..]);
    }
  }

  function Continued(kinds: seq<TokenKind>, rest: Kinds): Kinds {
    match rest
    case Ok(more) => Ok(kinds + more)
    case Err(e) => Err(e)
  }

  lemma NothingBefore(rest: Kinds)
    ensures Continued([], rest) == rest
  {
    if rest.Ok? {
      assert [] + rest.kinds == rest.kinds;
    }
  }

  lemma ContinueBy(kinds: seq<TokenKind>, kind: TokenKind, rest: Kinds)
    ensures Continued(kinds, Continued([kind], rest)) == Continued(kinds + [kind], rest)
  {
    if rest.Ok? {
      assert kinds + ([kind] + rest.kinds) == kinds + [kind] + rest.kinds;
    }
  }

  lemma {:induction false} KindsStep(u: Unicode, r: string)
    ensures Skip(r) == [] ==> KindsOf(u, r) == Ok([])
    ensures Skip(r) != [] && TokenOf(u, Skip(r)).Failed? ==> KindsOf(u, r) == Err(TokenOf(u, Skip(r)).error)
    ensures Skip(r) != [] && TokenOf(u, Skip(r)).Token? ==>
      var n := TokenOf(u, Skip(r)).length;
      1 <= n <= |Skip(r)| && !TokenOf(u, Skip(r)).kind.Eof? &&
      KindsOf(u, r) == Continued([TokenOf(u, Skip(r)).kind], KindsOf(u, Skip(r)[n..]))
  {
    if Skip(r) != [] {
      TokenLength(u, Skip(r));
    }
    hide TokenOf, Skip;
  }

  lemma LineComment(r: string)
    requires StartsWith(r, "//")
    ensures LineEnd(r) >= 2
  {
    assert r[0] == r[..2][0] && r[1] == r[..2][1];
    assert r[1..][0] == '/';
  }
}
