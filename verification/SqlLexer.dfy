/** The tokenizer: what it computes as functions on the rest of the text, and the lexer
    object that computes it with a cursor. */
module SqlLexer {
  import opened Values

  /** Kinds of tokens; a keyword that occurs only outside expressions is RESERVED, named by
      its token type. */
  datatype TokenType =
    | SELECT | WHERE | THEN | ELSE | END | CASE | AND | OR | NOT | AS | IS | IN | BETWEEN | LIKE | EXISTS | DISTINCT
    | INT_TYPE | BOOL_TYPE | TEXT_TYPE | VARCHAR | FLOAT_TYPE | DATE_TYPE | TIMESTAMP_TYPE
    | TRUE | FALSE | NULL_LITERAL | RESERVED(name: string)
    | IDENTIFIER | INTEGER_LITERAL | FLOAT_LITERAL | STRING_LITERAL
    | EQ | NEQ | LT | LEQ | GT | GEQ | PLUS | MINUS | SLASH | LPAREN | RPAREN | COMMA | SEMICOLON | STAR | DOT
    | END_OF_FILE | UNKNOWN

  datatype Token = Token(kind: TokenType, lexeme: string)

  const END_TOKEN := Token(END_OF_FILE, "")

  /** Tokens that keywords can be: no names, literals or punctuation. */
  predicate IsKeyword(k: TokenType) {
    match k
    case SELECT | WHERE | THEN | ELSE | END | CASE | AND | OR | NOT | AS | IS | IN | BETWEEN | LIKE | EXISTS | DISTINCT
      | INT_TYPE | BOOL_TYPE | TEXT_TYPE | VARCHAR | FLOAT_TYPE | DATE_TYPE | TIMESTAMP_TYPE
      | TRUE | FALSE | NULL_LITERAL | RESERVED(_) => true
    case _ => false
  }

  /** The keyword an upper-case word is; the dialect has its own vocabulary. The table is
      split by word length. */
  function KeywordOf(w: string): (k: Option<TokenType>)
    ensures k.Some? ==> IsKeyword(k.value)
  {
    match |w|
    case 2 => TwoLetters(w)
    case 3 => ThreeLetters(w)
    case 4 => FourLetters(w)
    case 5 => FiveLetters(w)
    case 6 => SixLetters(w)
    case 7 => SevenLetters(w)
    case 8 => EightLetters(w)
    case _ => LongKeyword(w)
  }

  function TwoLetters(w: string): (k: Option<TokenType>)
    ensures k.Some? ==> IsKeyword(k.value)
  {
    if w == "ON" then Some(RESERVED("ON")) else if w == "OR" then Some(OR)
    else if w == "BY" then Some(RESERVED("BY")) else if w == "OF" then Some(RESERVED("OF"))
    else if w == "AS" then Some(AS) else if w == "IS" then Some(IS) else if w == "IN" then Some(IN)
    else if w == "DO" then Some(RESERVED("DO"))
    else None
  }

  function ThreeLetters(w: string): (k: Option<TokenType>)
    ensures k.Some? ==> IsKeyword(k.value)
  {
    if w == "PUT" then Some(RESERVED("INSERT")) else if w == "AND" then Some(AND)
    else if w == "NOT" then Some(NOT) else if w == "INT" then Some(INT_TYPE)
    else if w == "SET" then Some(RESERVED("SET")) else if w == "END" then Some(END)
    else if w == "ASC" then Some(RESERVED("ASC")) else if w == "ADD" then Some(RESERVED("ADD"))
    else if w == "KEY" then Some(RESERVED("KEY")) else if w == "ALL" then Some(RESERVED("ALL"))
    else None
  }

  function FourLetters(w: string): (k: Option<TokenType>)
    ensures k.Some? ==> IsKeyword(k.value)
  {
    if w == "FROM" then Some(RESERVED("FROM")) else if w == "WHEN" then Some(WHERE)
    else if w == "INTO" then Some(RESERVED("INTO")) else if w == "BOOL" then Some(BOOL_TYPE)
    else if w == "TEXT" then Some(TEXT_TYPE) else if w == "REAL" then Some(FLOAT_TYPE)
    else if w == "DATE" then Some(DATE_TYPE) else if w == "TRUE" then Some(TRUE)
    else if w == "SORT" then Some(RESERVED("ORDER")) else if w == "TAKE" then Some(RESERVED("LIMIT"))
    else if w == "OVER" then Some(RESERVED("OVER")) else if w == "SKIP" then Some(RESERVED("OFFSET"))
    else if w == "CASE" then Some(CASE) else if w == "THEN" then Some(THEN)
    else if w == "ELSE" then Some(ELSE) else if w == "VIEW" then Some(RESERVED("VIEW"))
    else if w == "DESC" then Some(RESERVED("DESC")) else if w == "LINK" then Some(RESERVED("JOIN"))
    else if w == "LEFT" then Some(RESERVED("LEFT")) else if w == "FULL" then Some(RESERVED("FULL"))
    else if w == "LIKE" then Some(LIKE) else if w == "NULL" then Some(NULL_LITERAL)
    else if w == "SAVE" then Some(RESERVED("COMMIT")) else if w == "UNDO" then Some(RESERVED("ROLLBACK"))
    else None
  }

  function FiveLetters(w: string): (k: Option<TokenType>)
    ensures k.Some? ==> IsKeyword(k.value)
  {
    if w == "FETCH" then Some(SELECT) else if w == "BUILD" then Some(RESERVED("CREATE"))
    else if w == "INDEX" then Some(RESERVED("INDEX")) else if w == "FLOAT" then Some(FLOAT_TYPE)
    else if w == "FALSE" then Some(FALSE) else if w == "GROUP" then Some(RESERVED("GROUP"))
    else if w == "CROSS" then Some(RESERVED("CROSS")) else if w == "RIGHT" then Some(RESERVED("RIGHT"))
    else if w == "START" then Some(RESERVED("BEGIN")) else if w == "CHECK" then Some(RESERVED("CHECK"))
    else if w == "UNION" then Some(RESERVED("UNION"))
    else None
  }

  function SixLetters(w: string): (k: Option<TokenType>)
    ensures k.Some? ==> IsKeyword(k.value)
  {
    if w == "VALUES" then Some(RESERVED("VALUES")) else if w == "REMOVE" then Some(RESERVED("DELETE"))
    else if w == "BIGINT" then Some(INT_TYPE) else if w == "DOUBLE" then Some(FLOAT_TYPE)
    else if w == "MODIFY" then Some(RESERVED("UPDATE")) else if w == "HAVING" then Some(RESERVED("HAVING"))
    else if w == "COLUMN" then Some(RESERVED("COLUMN")) else if w == "UNIQUE" then Some(RESERVED("UNIQUE"))
    else if w == "SERIAL" then Some(RESERVED("AUTOINCR")) else if w == "EXCEPT" then Some(RESERVED("EXCEPT"))
    else if w == "EXISTS" then Some(EXISTS)
    else None
  }

  function SevenLetters(w: string): (k: Option<TokenType>)
    ensures k.Some? ==> IsKeyword(k.value)
  {
    if w == "INTEGER" then Some(INT_TYPE) else if w == "BOOLEAN" then Some(BOOL_TYPE)
    else if w == "VARCHAR" then Some(VARCHAR) else if w == "DECIMAL" then Some(FLOAT_TYPE)
    else if w == "NUMERIC" then Some(FLOAT_TYPE) else if w == "DISCARD" then Some(RESERVED("DROP"))
    else if w == "EXPLAIN" then Some(RESERVED("EXPLAIN")) else if w == "BETWEEN" then Some(BETWEEN)
    else if w == "RESHAPE" then Some(RESERVED("ALTER")) else if w == "NOTHING" then Some(RESERVED("NOTHING"))
    else if w == "FOREIGN" then Some(RESERVED("FOREIGN"))
    else if w == "PRIMARY" then Some(RESERVED("PRIMARY"))
    else if w == "DEFAULT" then Some(RESERVED("DEFAULT"))
    else if w == "CASCADE" then Some(RESERVED("CASCADE"))
    else None
  }

  function EightLetters(w: string): (k: Option<TokenType>)
    ensures k.Some? ==> IsKeyword(k.value)
  {
    if w == "RELATION" then Some(RESERVED("TABLE")) else if w == "SMALLINT" then Some(INT_TYPE)
    else if w == "DATETIME" then Some(TIMESTAMP_TYPE) else if w == "TRUNCATE" then Some(RESERVED("TRUNCATE"))
    else if w == "CONFLICT" then Some(RESERVED("CONFLICT"))
    else if w == "RESTRICT" then Some(RESERVED("RESTRICT"))
    else None
  }

  function LongKeyword(w: string): (k: Option<TokenType>)
    ensures k.Some? ==> IsKeyword(k.value)
  {
    if w == "TIMESTAMP" then Some(TIMESTAMP_TYPE) else if w == "PARTITION" then Some(RESERVED("PARTITION"))
    else if w == "RETURNING" then Some(RESERVED("RETURNING"))
    else if w == "INTERSECT" then Some(RESERVED("INTERSECT"))
    else if w == "REFERENCES" then Some(RESERVED("REFERENCES")) else if w == "UNIQUEONLY" then Some(DISTINCT)
    else if w == "AUTO_INCREMENT" then Some(RESERVED("AUTOINCR"))
    else None
  }

  // ----- Characters

  predicate IsIdentStart(c: char) {
    'a' <= c <= 'z' || 'A' <= c <= 'Z' || c == '_'
  }

  predicate IsDigit(c: char) {
    '0' <= c <= '9'
  }

  predicate IsIdentPart(c: char) {
    IsIdentStart(c) || IsDigit(c)
  }

  predicate IsBlank(c: char) {
    c == ' ' || c == '\t' || c == '\r' || c == '\n'
  }

  function ToUpper(c: char): char {
    if 'a' <= c <= 'z' then c - 32 as char else c
  }

  function Upper(s: string): (r: string)
    ensures |r| == |s|
    ensures forall k :: 0 <= k < |s| ==> r[k] == ToUpper(s[k])
  {
    if s == "" then "" else [ToUpper(s[0])] + Upper(s[1..])
  }

  // ----- Tokens, as functions of the text still to be read

  /** The text from the end of the line on. */
  function SkipLine(s: string): (r: string)
    ensures |r| <= |s|
  {
    if s == "" || s[0] == '\n' then s else SkipLine(s[1..])
  }

  /** The text after white space and comments. */
  function SkipBlank(s: string): (r: string)
    ensures |r| <= |s|
    decreases |s|
  {
    if s == "" then s
    else if IsBlank(s[0]) then SkipBlank(s[1..])
    else if s[0] == '-' && 1 < |s| && s[1] == '-' then SkipBlank(SkipLine(s[1..]))
    else s
  }

  /** Length of the run of identifier characters the text starts with. */
  function IdentLength(s: string): (n: nat)
    ensures n <= |s|
  {
    if s == "" || !IsIdentPart(s[0]) then 0 else 1 + IdentLength(s[1..])
  }

  function DigitLength(s: string): (n: nat)
    ensures n <= |s|
  {
    if s == "" || !IsDigit(s[0]) then 0 else 1 + DigitLength(s[1..])
  }

  lemma {:induction false} IdentRun(s: string, n: nat)
    requires n <= |s| && forall k :: 0 <= k < n ==> IsIdentPart(s[k])
    requires n < |s| ==> !IsIdentPart(s[n])
    ensures IdentLength(s) == n
  {
    hide IsIdentPart;
    if n > 0 {
      IdentRun(s[1..], n - 1);
    }
  }

  lemma {:induction false} DigitRun(s: string, n: nat)
    requires n <= |s| && forall k :: 0 <= k < n ==> IsDigit(s[k])
    requires n < |s| ==> !IsDigit(s[n])
    ensures DigitLength(s) == n
  {
    hide IsDigit;
    if n > 0 {
      DigitRun(s[1..], n - 1);
    }
  }

  function WordToken(w: string): Token {
    match KeywordOf(Upper(w))
    case Some(k) => Token(k, w)
    case None => Token(IDENTIFIER, w)
  }

  /** A point followed by a digit. */
  predicate Fractional(s: string) {
    1 < |s| && s[0] == '.' && IsDigit(s[1])
  }

  /** Length of a number: digits, and a fraction when the point is followed by a digit. */
  function NumberLength(s: string): (n: nat)
    ensures DigitLength(s) <= n <= |s|
  {
    var whole := DigitLength(s);
    if Fractional(s[whole..]) then whole + 1 + DigitLength(s[whole + 1..]) else whole
  }

  function NumberToken(s: string): Token {
    var n := NumberLength(s);
    Token(if n == DigitLength(s) then INTEGER_LITERAL else FLOAT_LITERAL, s[..n])
  }

  /** A quoted text's value, whether its closing quote was found, and the text after it. */
  datatype Quoted = Quoted(value: string, closed: bool, rest: string)

  function ScanQuoted(s: string): (q: Quoted)
    ensures |q.rest| <= |s|
    decreases |s|
  {
    if s == "" then Quoted("", false, "")
    else if s[0] == '\'' then
      if 1 < |s| && s[1] == '\'' then
        var q := ScanQuoted(s[2..]);
        Quoted("'" + q.value, q.closed, q.rest)
      else Quoted("", true, s[1..])
    else
      var q := ScanQuoted(s[1..]);
      Quoted([s[0]] + q.value, q.closed, q.rest)
  }

  function Prepend(value: string, q: Quoted): Quoted {
    Quoted(value + q.value, q.closed, q.rest)
  }

  /** The token of a text whose opening quote has been read, and what follows it. */
  function QuotedToken(s: string): (r: (Token, string))
    ensures |r.1| <= |s|
  {
    var q := ScanQuoted(s);
    (Token(if q.closed then STRING_LITERAL else UNKNOWN, q.value), q.rest)
  }

  /** A token of one or two punctuation characters; its lexeme is as long as what it takes. */
  function SymbolToken(s: string): (t: Token)
    requires s != ""
    ensures 1 <= |t.lexeme| <= |s|
  {
    var two := 1 < |s|;
    match s[0]
    case '(' => Token(LPAREN, "(")
    case ')' => Token(RPAREN, ")")
    case ',' => Token(COMMA, ",")
    case ';' => Token(SEMICOLON, ";")
    case '*' => Token(STAR, "*")
    case '+' => Token(PLUS, "+")
    case '-' => Token(MINUS, "-")
    case '/' => Token(SLASH, "/")
    case '.' => Token(DOT, ".")
    case '=' => Token(EQ, "=")
    case '<' =>
      if two && s[1] == '=' then Token(LEQ, "<=")
      else if two && s[1] == '>' then Token(NEQ, "<>")
      else Token(LT, "<")
    case '>' => if two && s[1] == '=' then Token(GEQ, ">=") else Token(GT, ">")
    case '!' => if two && s[1] == '=' then Token(NEQ, "!=") else Token(UNKNOWN, "!")
    case _ => Token(UNKNOWN, [s[0]])
  }

  /** The first token and the text after it. */
  function ScanToken(s: string): (r: (Token, string))
    requires s != ""
    ensures |r.1| < |s|
  {
    if IsIdentStart(s[0]) then (WordToken(s[..IdentLength(s)]), s[IdentLength(s)..])
    else if IsDigit(s[0]) then (NumberToken(s), s[NumberLength(s)..])
    else if s[0] == '\'' then QuotedToken(s[1..])
    else (SymbolToken(s), s[|SymbolToken(s).lexeme|..])
  }

  /** All tokens of a text, the end marker last. */
  function Lex(s: string): (ts: seq<Token>)
    ensures ts != [] && ts[|ts| - 1] == END_TOKEN
    decreases |s|
  {
    var t := SkipBlank(s);
    if t == "" then [END_TOKEN]
    else [ScanToken(t).0] + Lex(ScanToken(t).1)
  }

  lemma PrependNothing(q: Quoted)
    ensures Prepend("", q) == q
  {
  }

  /** Reading one character of the quoted text, doubled when it is a quote. */
  lemma QuotedStep(value: string, s: string, taken: nat)
    requires s != "" && taken <= |s| && taken == if s[0] == '\'' then 2 else 1
    requires s[0] == '\'' ==> s[1] == '\''
    ensures Prepend(value, ScanQuoted(s)) == Prepend(value + [s[0]], ScanQuoted(s[taken..]))
  {
    var q := ScanQuoted(s[taken..]);
    assert value + ([s[0]] + q.value) == (value + [s[0]]) + q.value;
  }

  lemma QuotedEnd(value: string, s: string)
    requires s == "" || (s[0] == '\'' && (|s| == 1 || s[1] != '\''))
    ensures Prepend(value, ScanQuoted(s)) == Quoted(value, s != "", if s == "" then "" else s[1..])
  {
    assert value + "" == value;
  }

  lemma PointFirst(r: string)
    requires Fractional(r)
    ensures r != "" && r[0] == '.'
  {
  }

  lemma WholeNumber(s: string)
    requires !Fractional(s[DigitLength(s)..])
    ensures NumberLength(s) == DigitLength(s) && NumberToken(s) == Token(INTEGER_LITERAL, s[..DigitLength(s)])
  {
    hide DigitLength, Fractional;
  }

  lemma FractionText(s: string, lexeme: string, rest: string)
    requires Fractional(s[DigitLength(s)..])
    requires var r := s[DigitLength(s)..][1..]; rest == r[DigitLength(r)..] && lexeme == s[..DigitLength(s)] + "." + r[..DigitLength(r)]
    ensures NumberToken(s) == Token(FLOAT_LITERAL, lexeme) && rest == s[NumberLength(s)..]
  {
    hide DigitLength, IsDigit, Fractional;
    var n := DigitLength(s);
    PointFirst(s[n..]);
    var r := s[n + 1..];
    assert s[n..][1..] == r;
    FractionLength(s);
    SplitThree(s, n, DigitLength(r));
    assert s[n] == '.';
  }

  lemma FractionLength(s: string)
    requires Fractional(s[DigitLength(s)..])
    ensures DigitLength(s) + 1 < |s| && NumberLength(s) == DigitLength(s) + 1 + DigitLength(s[DigitLength(s) + 1..])
    ensures NumberLength(s) > DigitLength(s)
  {
    hide DigitLength, IsDigit;
  }

  lemma SplitThree(s: string, n: nat, m: nat)
    requires n + 1 + m <= |s|
    ensures s[..n + 1 + m] == s[..n] + [s[n]] + s[n + 1..][..m]
  {
  }

  // ----- The lexer object

  class Lexer {
    const source: string
    var pos: nat

    constructor (source: string)
      ensures this.source == source && pos == 0
    {
      this.source := source;
      pos := 0;
    }

    ghost predicate Valid()
      reads this
    {
      pos <= |source|
    }

    ghost function Rest(): string
      reads this
      requires Valid()
    {
      source[pos..]
    }

    /** The character `ahead` places on; NUL past the end. */
    method PeekAt(ahead: nat) returns (c: char)
      requires Valid()
      ensures c == if ahead < |Rest()| then Rest()[ahead] else '\0'
    {
      c := if pos + ahead < |source| then source[pos + ahead] else '\0';
    }

    method Advance() returns (c: char)
      requires Valid() && Rest() != ""
      modifies this
      ensures Valid() && old(Rest()) == [c] + Rest()
    {
      c := source[pos];
      pos := pos + 1;
    }

    method SkipWhitespaceAndComments()
      requires Valid()
      modifies this
      ensures Valid() && Rest() == SkipBlank(old(Rest()))
    {
      while true
        invariant Valid() && SkipBlank(Rest()) == SkipBlank(old(Rest()))
        decreases |Rest()|
      {
        var c := PeekAt(0);
        var d := PeekAt(1);
        if IsBlank(c) {
          var _ := Advance();
        } else if c == '-' && d == '-' {
          ghost var before := Rest();
          while pos < |source| && source[pos] != '\n'
            invariant Valid() && SkipLine(Rest()) == SkipLine(before)
            invariant Rest() == before || |Rest()| < |before|
          {
            var _ := Advance();
          }
        } else {
          return;
        }
      }
    }

    /** The whole token list, end marker included. */
    method Tokenize() returns (tokens: seq<Token>)
      requires Valid()
      modifies this
      ensures Valid() && tokens == Lex(old(Rest()))
    {
      tokens := [];
      while true
        invariant Valid() && tokens + Lex(Rest()) == Lex(old(Rest()))
        decreases |Rest()|
      {
        ghost var before := Rest();
        SkipWhitespaceAndComments();
        if pos == |source| {
          tokens := tokens + [END_TOKEN];
          return;
        }
        ghost var at := Rest();
        var t := Scan();
        assert Lex(before) == [t] + Lex(Rest());
        tokens := tokens + [t];
      }
    }

    method Scan() returns (t: Token)
      requires Valid() && Rest() != ""
      modifies this
      ensures Valid() && (t, Rest()) == ScanToken(old(Rest()))
    {
      var c := PeekAt(0);
      if IsIdentStart(c) {
        t := ScanIdentifierOrKeyword();
      } else if IsDigit(c) {
        t := ScanNumber();
      } else if c == '\'' {
        t := ScanString();
      } else {
        t := ScanSymbol();
      }
    }

    method ScanIdentifierOrKeyword() returns (t: Token)
      requires Valid()
      modifies this
      ensures Valid()
      ensures t == WordToken(old(Rest())[..IdentLength(old(Rest()))])
      ensures Rest() == old(Rest())[IdentLength(old(Rest()))..]
    {
      hide IsIdentPart, WordToken, IdentLength;
      ghost var s := Rest();
      var lexeme := "";
      while pos < |source| && IsIdentPart(source[pos])
        invariant Valid() && |lexeme| <= |s| && lexeme == s[..|lexeme|] && Rest() == s[|lexeme|..]
        invariant forall k :: 0 <= k < |lexeme| ==> IsIdentPart(s[k])
      {
        var c := Advance();
        lexeme := lexeme + [c];
      }
      IdentRun(s, |lexeme|);
      t := WordToken(lexeme);
    }

    /** Appends the digits that follow. */
    method ScanDigits(soFar: string) returns (lexeme: string)
      requires Valid()
      modifies this
      ensures Valid() && lexeme == soFar + old(Rest())[..DigitLength(old(Rest()))]
      ensures Rest() == old(Rest())[DigitLength(old(Rest()))..]
    {
      hide IsDigit, DigitLength;
      ghost var s, n := Rest(), 0;
      lexeme := soFar;
      while pos < |source| && IsDigit(source[pos])
        invariant Valid() && 0 <= n <= |s| && lexeme == soFar + s[..n] && Rest() == s[n..]
        invariant forall k :: 0 <= k < n ==> IsDigit(s[k])
      {
        var c := Advance();
        lexeme := lexeme + [c];
        n := n + 1;
      }
      DigitRun(s, n);
    }

    /** Whether a point and a digit come next. */
    method CheckFraction() returns (b: bool)
      requires Valid()
      ensures b == Fractional(Rest())
    {
      b := pos + 1 < |source| && source[pos] == '.' && IsDigit(source[pos + 1]);
    }

    method ScanNumber() returns (t: Token)
      requires Valid()
      modifies this
      ensures Valid()
      ensures t == NumberToken(old(Rest())) && Rest() == old(Rest())[NumberLength(old(Rest()))..]
    {
      hide DigitLength, NumberLength, NumberToken, Fractional;
      ghost var s := Rest();
      var lexeme := ScanDigits("");
      assert lexeme == s[..DigitLength(s)];
      var fraction := CheckFraction();
      if fraction {
        PointFirst(Rest());
        var point := Advance();
        lexeme := ScanDigits(lexeme + [point]);
        FractionText(s, lexeme, Rest());
        t := Token(FLOAT_LITERAL, lexeme);
      } else {
        WholeNumber(s);
        t := Token(INTEGER_LITERAL, lexeme);
      }
    }

    method ScanString() returns (t: Token)
      requires Valid() && Rest() != "" && Rest()[0] == '\''
      modifies this
      ensures Valid() && (t, Rest()) == QuotedToken(old(Rest())[1..])
    {
      var _ := Advance();
      hide ScanQuoted, Prepend;
      ghost var s := Rest();
      var value := "";
      PrependNothing(ScanQuoted(s));
      while true
        invariant Valid() && ScanQuoted(s) == Prepend(value, ScanQuoted(Rest()))
        decreases |Rest()|
      {
        if pos == |source| {
          QuotedEnd(value, Rest());
          return Token(UNKNOWN, value);
        }
        ghost var before := Rest();
        var c := Advance();
        assert Rest() == before[1..];
        if c == '\'' {
          var next := PeekAt(0);
          if next == '\'' {
            var _ := Advance();
            assert Rest() == before[2..];
            QuotedStep(value, before, 2);
            value := value + "'";
          } else {
            QuotedEnd(value, before);
            return Token(STRING_LITERAL, value);
          }
        } else {
          QuotedStep(value, before, 1);
          value := value + [c];
        }
      }
    }

    method ScanSymbol() returns (t: Token)
      requires Valid() && Rest() != ""
      modifies this
      ensures Valid() && t == SymbolToken(old(Rest())) && Rest() == old(Rest())[|t.lexeme|..]
    {
      var c := Advance();
      match c {
        case '(' => t := Token(LPAREN, "(");
        case ')' => t := Token(RPAREN, ")");
        case ',' => t := Token(COMMA, ",");
        case ';' => t := Token(SEMICOLON, ";");
        case '*' => t := Token(STAR, "*");
        case '+' => t := Token(PLUS, "+");
        case '-' => t := Token(MINUS, "-");
        case '/' => t := Token(SLASH, "/");
        case '.' => t := Token(DOT, ".");
        case '=' => t := Token(EQ, "=");
        case '<' =>
          var d := PeekAt(0);
          if d == '=' {
            var _ := Advance();
            t := Token(LEQ, "<=");
          } else if d == '>' {
            var _ := Advance();
            t := Token(NEQ, "<>");
          } else {
            t := Token(LT, "<");
          }
        case '>' =>
          var d := PeekAt(0);
          if d == '=' {
            var _ := Advance();
            t := Token(GEQ, ">=");
          } else {
            t := Token(GT, ">");
          }
        case '!' =>
          var d := PeekAt(0);
          if d == '=' {
            var _ := Advance();
            t := Token(NEQ, "!=");
          } else {
            t := Token(UNKNOWN, "!");
          }
        case _ => t := Token(UNKNOWN, [c]);
      }
    }
  }
}
