/** How the pieces of a printed expression lex, alone and next to one another. */
module SqlPrinting {
  import opened Values
  import opened SqlAst
  import opened SqlLexer
  import opened SqlParser
  import opened SqlPrinter
  import opened SqlTokens

  // ----- Text that lexes by itself

  /** A character that ends a word, a number or a quoted text. */
  predicate Ends(c: char) {
    c == ' ' || c == ')' || c == ','
  }

  predicate Ended(rest: string) {
    rest == "" || Ends(rest[0])
  }

  /** Whatever follows, this text lexes to these tokens. */
  ghost predicate Closed(s: string, ts: Tokens) {
    forall rest: string :: Lex(s + rest) == ts + Lex(rest)
  }

  /** The same, if the last word is ended by what follows. */
  ghost predicate Open(s: string, ts: Tokens) {
    forall rest: string :: Ended(rest) ==> Lex(s + rest) == ts + Lex(rest)
  }

  lemma ClosedThenOpen(a: string, ta: Tokens, b: string, tb: Tokens)
    requires Closed(a, ta) && Open(b, tb)
    ensures Open(a + b, ta + tb)
  {
    hide Lex;
    forall rest | Ended(rest) ensures Lex(a + b + rest) == ta + tb + Lex(rest) {
      assert a + b + rest == a + (b + rest);
      assert Lex(b + rest) == tb + Lex(rest);
    }
  }

  lemma OpenThenClosed(a: string, ta: Tokens, b: string, tb: Tokens)
    requires Open(a, ta) && Closed(b, tb) && b != "" && Ends(b[0])
    ensures Closed(a + b, ta + tb)
  {
    hide Lex;
    forall rest ensures Lex(a + b + rest) == ta + tb + Lex(rest) {
      assert a + b + rest == a + (b + rest);
      assert Ended(b + rest);
      assert Lex(b + rest) == tb + Lex(rest);
    }
  }

  lemma ClosedThenClosed(a: string, ta: Tokens, b: string, tb: Tokens)
    requires Closed(a, ta) && Closed(b, tb)
    ensures Closed(a + b, ta + tb)
  {
    hide Lex;
    forall rest ensures Lex(a + b + rest) == ta + tb + Lex(rest) {
      assert a + b + rest == a + (b + rest);
      assert Lex(b + rest) == tb + Lex(rest);
    }
  }

  lemma ClosedIsOpen(s: string, ts: Tokens)
    requires Closed(s, ts)
    ensures Open(s, ts)
  {
    hide Lex;
  }

  // ----- Single tokens

  /** A text that starts with a token. */
  lemma FirstToken(s: string, t: Token, rest: string)
    requires s != "" && !IsBlank(s[0]) && (s[0] == '-' ==> |s| == 1 || s[1] != '-')
    requires ScanToken(s) == (t, rest)
    ensures Lex(s) == [t] + Lex(rest)
  {
    hide ScanToken;
  }

  lemma WordStops(w: string, rest: string)
    requires w != "" && IsIdentStart(w[0]) && forall k :: 0 <= k < |w| ==> IsIdentPart(w[k])
    requires rest == "" || !IsIdentPart(rest[0])
    ensures Lex(w + rest) == [WordToken(w)] + Lex(rest)
  {
    hide WordToken, IdentLength, Lex;
    var s := w + rest;
    IdentRun(s, |w|);
    assert s[..|w|] == w && s[|w|..] == rest;
    FirstToken(s, WordToken(w), rest);
  }

  lemma WordOpen(w: string)
    requires w != "" && IsIdentStart(w[0]) && forall k :: 0 <= k < |w| ==> IsIdentPart(w[k])
    ensures Open(w, [WordToken(w)])
  {
    hide WordToken, Lex;
    forall rest | Ended(rest) ensures Lex(w + rest) == [WordToken(w)] + Lex(rest) {
      WordStops(w, rest);
    }
  }

  lemma BlankClosed()
    ensures Closed(" ", [])
  {
    forall rest ensures Lex(" " + rest) == [] + Lex(rest) {
      assert (" " + rest)[1..] == rest;
      assert SkipBlank(" " + rest) == SkipBlank(rest);
    }
  }

  lemma SymbolClosed(c: char, k: TokenType)
    requires (c == '(' && k == LPAREN) || (c == ')' && k == RPAREN) || (c == ',' && k == COMMA) || (c == '.' && k == DOT)
    ensures Closed([c], [Token(k, [c])])
  {
    hide Lex;
    forall rest ensures Lex([c] + rest) == [Token(k, [c])] + Lex(rest) {
      assert ([c] + rest)[1..] == rest;
      FirstToken([c] + rest, Token(k, [c]), rest);
    }
  }

  lemma IntOpen(n: nat)
    ensures Open(Digits(n), [Token(INTEGER_LITERAL, Digits(n))])
  {
    hide Digits, Lex, DigitLength;
    var d := Digits(n);
    DigitsRead(n);
    forall rest | Ended(rest) ensures Lex(d + rest) == [Token(INTEGER_LITERAL, d)] + Lex(rest) {
      var s := d + rest;
      DigitRun(s, |d|);
      assert s[..|d|] == d && s[|d|..] == rest;
      FirstToken(s, Token(INTEGER_LITERAL, d), rest);
    }
  }

  lemma FixedOpen(d: real)
    requires d >= 0.0
    ensures Open(Fixed(d), [Token(FLOAT_LITERAL, Fixed(d))])
  {
    hide Fixed, Lex;
    var f := Fixed(d);
    forall rest | Ended(rest) ensures Lex(f + rest) == [Token(FLOAT_LITERAL, f)] + Lex(rest) {
      FixedStops(d, rest);
    }
  }

  lemma FixedStops(d: real, rest: string)
    requires d >= 0.0 && Ended(rest)
    ensures Lex(Fixed(d) + rest) == [Token(FLOAT_LITERAL, Fixed(d))] + Lex(rest)
  {
    hide Fixed, Lex, DigitLength;
    var f := Fixed(d);
    var s := f + rest;
    var p := DigitLength(f);
    FixedRead(d);
    FixedStarts(d);
    DigitRun(s, p);
    DigitRun(s[p + 1..], |f| - p - 1);
    assert s[..|f|] == f && s[|f|..] == rest;
    FirstToken(s, Token(FLOAT_LITERAL, f), rest);
  }

  lemma FixedStarts(d: real)
    requires d >= 0.0
    ensures 0 < DigitLength(Fixed(d)) && IsDigit(Fixed(d)[0])
  {
    hide Digits, LastDigits, LeadingDigits, Millionths;
    DigitsRead(LeadingDigits(Millionths(d), 6));
  }

  lemma {:induction false} DoubledScans(t: string, rest: string)
    requires rest == "" || rest[0] != '\''
    ensures ScanQuoted(Doubled(t) + "'" + rest) == Quoted(t, true, rest)
  {
    var s := Doubled(t) + "'" + rest;
    if t == "" {
      assert s == "'" + rest && s[1..] == rest;
    } else {
      DoubledScans(t[1..], rest);
      var q := Doubled(t[1..]) + "'" + rest;
      if t[0] == '\'' {
        assert s == "''" + q && s[2..] == q;
      } else {
        assert s == [t[0]] + q && s[1..] == q;
      }
    }
  }

  lemma QuotedOpen(t: string)
    ensures Open("'" + Doubled(t) + "'", [Token(STRING_LITERAL, t)])
  {
    hide Lex, Doubled, ScanQuoted;
    forall rest | Ended(rest) ensures Lex("'" + Doubled(t) + "'" + rest) == [Token(STRING_LITERAL, t)] + Lex(rest) {
      var s := "'" + Doubled(t) + "'" + rest;
      DoubledScans(t, rest);
      assert s[1..] == Doubled(t) + "'" + rest;
      FirstToken(s, Token(STRING_LITERAL, t), rest);
    }
  }

  /** A minus sign in front of a number. */
  lemma SignedOpen(s: string, ts: Tokens)
    requires Open(s, ts) && s != "" && IsDigit(s[0])
    ensures Open("-" + s, [MINUS_SIGN] + ts)
  {
    hide Lex;
    forall rest | Ended(rest) ensures Lex("-" + s + rest) == [MINUS_SIGN] + ts + Lex(rest) {
      assert ("-" + s + rest)[1..] == s + rest;
      FirstToken("-" + s + rest, MINUS_SIGN, s + rest);
    }
  }

  // ----- Keywords and operators between spaces

  lemma SpacedClosed(w: string, t: Token)
    requires Open(w, [t])
    ensures Closed(Spaced(w), [t])
  {
    hide Closed, Open;
    BlankClosed();
    ClosedThenOpen(" ", [], w, [t]);
    OpenThenClosed(" " + w, [] + [t], " ", []);
    assert [] + [t] + [] == [t];
  }

  predicate Capitals(w: string) {
    w != "" && forall i :: 0 <= i < |w| ==> 'A' <= w[i] <= 'Z'
  }

  lemma KeywordOpen(w: string, k: TokenType)
    requires Capitals(w) && KeywordOf(w) == Some(k)
    ensures Open(w, [Token(k, w)])
  {
    hide KeywordOf, Open, Upper;
    UpperKept(w);
    assert WordToken(w) == Token(k, w);
    WordOpen(w);
  }

  lemma UpperKept(w: string)
    requires Capitals(w)
    ensures Upper(w) == w
  {
  }

  lemma OperatorOpen(s: string, t: Token)
    requires t.lexeme == s && 0 < |s| <= 2 && !IsBlank(s[0]) && (|s| == 2 ==> s[0] != '-')
    requires !IsIdentStart(s[0]) && !IsDigit(s[0]) && s[0] != '\''
    requires forall rest: string :: Ended(rest) ==> SymbolToken(s + rest) == t
    ensures Open(s, [t])
  {
    hide Lex, SymbolToken;
    forall rest | Ended(rest) ensures Lex(s + rest) == [t] + Lex(rest) {
      assert SymbolToken(s + rest) == t;
      assert (s + rest)[|s|..] == rest;
      FirstToken(s + rest, t, rest);
    }
  }

  lemma ComparisonOpen(op: ComparisonOp)
    ensures Open(ComparisonText(op), [ComparisonToken(op)])
  {
    hide Open;
    OperatorOpen(ComparisonText(op), ComparisonToken(op));
  }

  lemma ArithmeticOpen(op: ArithmeticOp)
    ensures Open(ArithmeticText(op), [ArithmeticToken(op)])
  {
    hide Open;
    OperatorOpen(ArithmeticText(op), ArithmeticToken(op));
  }

  // The keywords the printer writes.

  lemma AndKeyword()
    ensures Capitals("AND") && KeywordOf("AND") == Some(AND)
  {
  }

  lemma OrKeyword()
    ensures Capitals("OR") && KeywordOf("OR") == Some(OR)
  {
  }

  lemma NotKeyword()
    ensures Capitals("NOT") && KeywordOf("NOT") == Some(NOT)
  {
  }

  lemma IsKeyword()
    ensures Capitals("IS") && KeywordOf("IS") == Some(IS)
  {
  }

  lemma InKeyword()
    ensures Capitals("IN") && KeywordOf("IN") == Some(IN)
  {
  }

  lemma LikeKeyword()
    ensures Capitals("LIKE") && KeywordOf("LIKE") == Some(LIKE)
  {
  }

  lemma BetweenKeyword()
    ensures Capitals("BETWEEN") && KeywordOf("BETWEEN") == Some(BETWEEN)
  {
  }

  lemma TrueKeyword()
    ensures Capitals("TRUE") && KeywordOf("TRUE") == Some(TRUE)
  {
  }

  lemma FalseKeyword()
    ensures Capitals("FALSE") && KeywordOf("FALSE") == Some(FALSE)
  {
  }

  lemma NullKeyword()
    ensures Capitals("NULL") && KeywordOf("NULL") == Some(NULL_LITERAL)
  {
  }

  lemma CaseKeyword()
    ensures Capitals("CASE") && KeywordOf("CASE") == Some(CASE)
  {
  }

  lemma WhenKeyword()
    ensures Capitals("WHEN") && KeywordOf("WHEN") == Some(WHERE)
  {
  }

  lemma ThenKeyword()
    ensures Capitals("THEN") && KeywordOf("THEN") == Some(THEN)
  {
  }

  lemma ElseKeyword()
    ensures Capitals("ELSE") && KeywordOf("ELSE") == Some(ELSE)
  {
  }

  lemma EndKeyword()
    ensures Capitals("END") && KeywordOf("END") == Some(END)
  {
  }

  lemma OperatorWords()
    ensures Open("AND", [Token(AND, "AND")])
    ensures Open("OR", [Token(OR, "OR")])
    ensures Open("NOT", [Token(NOT, "NOT")])
    ensures Open("IS", [Token(IS, "IS")])
    ensures Open("IN", [Token(IN, "IN")])
    ensures Open("LIKE", [Token(LIKE, "LIKE")])
    ensures Open("BETWEEN", [Token(BETWEEN, "BETWEEN")])
  {
    hide Open, KeywordOf, Capitals;
    AndKeyword();
    KeywordOpen("AND", AND);
    OrKeyword();
    KeywordOpen("OR", OR);
    NotKeyword();
    KeywordOpen("NOT", NOT);
    IsKeyword();
    KeywordOpen("IS", IS);
    InKeyword();
    KeywordOpen("IN", IN);
    LikeKeyword();
    KeywordOpen("LIKE", LIKE);
    BetweenKeyword();
    KeywordOpen("BETWEEN", BETWEEN);
  }

  lemma LiteralWords()
    ensures Open("TRUE", [Token(TRUE, "TRUE")])
    ensures Open("FALSE", [Token(FALSE, "FALSE")])
    ensures Open("NULL", [Token(NULL_LITERAL, "NULL")])
  {
    hide Open, KeywordOf, Capitals;
    TrueKeyword();
    KeywordOpen("TRUE", TRUE);
    FalseKeyword();
    KeywordOpen("FALSE", FALSE);
    NullKeyword();
    KeywordOpen("NULL", NULL_LITERAL);
  }

  lemma CaseWords()
    ensures Open("CASE", [Token(CASE, "CASE")])
    ensures Open("WHEN", [Token(WHERE, "WHEN")])
    ensures Open("THEN", [Token(THEN, "THEN")])
    ensures Open("ELSE", [Token(ELSE, "ELSE")])
    ensures Open("END", [Token(END, "END")])
  {
    hide Open, KeywordOf, Capitals;
    CaseKeyword();
    KeywordOpen("CASE", CASE);
    WhenKeyword();
    KeywordOpen("WHEN", WHERE);
    ThenKeyword();
    KeywordOpen("THEN", THEN);
    ElseKeyword();
    KeywordOpen("ELSE", ELSE);
    EndKeyword();
    KeywordOpen("END", END);
  }

  lemma AsKeyword()
    ensures Capitals("AS") && KeywordOf("AS") == Some(AS)
  {
  }

  lemma ShortTypeKeyword(t: DataType)
    requires t.IntType? || t.BoolType? || t.TextType? || t.DateType?
    ensures Capitals(TypeName(t)) && KeywordOf(TypeName(t)) == Some(TypeToken(t).kind)
  {
  }

  lemma LongTypeKeyword(t: DataType)
    requires t.VarcharType? || t.FloatType? || t.TimestampType?
    ensures Capitals(TypeName(t)) && KeywordOf(TypeName(t)) == Some(TypeToken(t).kind)
  {
  }

  lemma TypeOpen(t: DataType)
    ensures Open("AS", [Token(AS, "AS")]) && Open(TypeName(t), [TypeToken(t)])
  {
    hide Open, KeywordOf, Capitals, TypeName;
    AsKeyword();
    if t.VarcharType? || t.FloatType? || t.TimestampType? {
      LongTypeKeyword(t);
    } else {
      ShortTypeKeyword(t);
    }
    KeywordOpen("AS", AS);
    KeywordOpen(TypeName(t), TypeToken(t).kind);
  }


  // ----- Text that users write and the printer does not

  /** White space and comments between tokens leave no trace. */
  lemma {:induction false} BlanksVanish(c: char, line: string, s: string)
    requires c in {' ', '\t', '\r', '\n'} && '\n' !in line
    ensures Lex([c] + s) == Lex(s)
    ensures Lex("--" + line + "\n" + s) == Lex(s) && Lex("--" + line) == [END_TOKEN]
  {
    hide ScanToken, SkipLine;
    assert ([c] + s)[1..] == s && SkipBlank([c] + s) == SkipBlank(s);
    var t := "--" + line + "\n" + s;
    assert t[1..] == "-" + line + "\n" + s;
    LineSkipped("-" + line, s);
    assert SkipBlank(t) == SkipBlank("\n" + s);
    assert ("\n" + s)[1..] == s;
    assert ("--" + line)[1..] == "-" + line;
  }

  lemma {:induction false} LineSkipped(line: string, s: string)
    requires '\n' !in line
    ensures SkipLine(line + "\n" + s) == "\n" + s && SkipLine(line) == ""
  {
    if line == "" {
      assert line + "\n" + s == "\n" + s;
    } else {
      LineSkipped(line[1..], s);
      assert (line + "\n" + s)[1..] == line[1..] + "\n" + s;
    }
  }

  /** A keyword may be written in either case, and inequality in two ways. */
  lemma WordsIgnoreCase(w: string, k: TokenType, rest: string)
    requires w != "" && IsIdentStart(w[0]) && (forall i :: 0 <= i < |w| ==> IsIdentPart(w[i])) && KeywordOf(Upper(w)) == Some(k)
    requires rest == "" || !IsIdentPart(rest[0])
    ensures Lex(w + rest) == [Token(k, w)] + Lex(rest)
    ensures Lex("<>" + rest) == [Token(NEQ, "<>")] + Lex(rest)
  {
    hide Lex, KeywordOf;
    WordStops(w, rest);
    assert ("<>" + rest)[2..] == rest;
    FirstToken("<>" + rest, Token(NEQ, "<>"), rest);
  }
}
