/** The lexer splits an expression's printed text into that expression's tokens. */
module SqlRoundTrip {
  import opened Values
  import opened SqlAst
  import opened SqlLexer
  import opened SqlParser
  import opened SqlPrinter
  import opened SqlTokens
  import opened SqlReading
  import opened SqlPrinting

  // ----- Gluing printed parts

  /** "(" l mid r ")" for two printed operands around a spaced operator. */
  lemma BinaryText(l: string, tl: Tokens, mid: string, tm: Tokens, r: string, tr: Tokens)
    requires Open(l, tl) && Closed(mid, tm) && mid != "" && Ends(mid[0]) && Open(r, tr)
    ensures Open("(" + l + mid + r + ")", [LP] + ((tl + (tm + tr)) + [RP]))
  {
    hide Open, Closed, Ends;
    LeftText(l, tl, mid, tm);
    ClosedThenOpen("(" + l + mid, [LP] + tl + tm, r, tr);
    CloseText("(" + l + mid + r, [LP] + tl + tm + tr);
    assert [LP] + tl + tm + tr + [RP] == [LP] + ((tl + (tm + tr)) + [RP]);
  }

  /** "(" l mid, ready for the next operand. */
  lemma LeftText(l: string, tl: Tokens, mid: string, tm: Tokens)
    requires Open(l, tl) && Closed(mid, tm) && mid != "" && Ends(mid[0])
    ensures Closed("(" + l + mid, [LP] + tl + tm)
  {
    hide Open, Closed, Ends;
    SymbolClosed('(', LPAREN);
    ClosedThenOpen("(", [LP], l, tl);
    OpenThenClosed("(" + l, [LP] + tl, mid, tm);
  }

  lemma CloseText(s: string, ts: Tokens)
    requires Open(s, ts)
    ensures Closed(s + ")", ts + [RP]) && Open(s + ")", ts + [RP])
  {
    hide Open, Closed;
    SymbolClosed(')', RPAREN);
    OpenThenClosed(s, ts, ")", [RP]);
    ClosedIsOpen(s + ")", ts + [RP]);
  }

  /** [NOT] in front of a comparison keyword. */
  lemma NegationText(negated: bool, mid: string, tm: Tokens)
    requires Closed(mid, tm) && mid != "" && mid[0] == ' '
    ensures Closed(Negation(negated) + mid, NotTokens(negated) + tm)
    ensures Ends((Negation(negated) + mid)[0])
  {
    hide Closed, Open;
    if negated {
      OperatorWords();
      BlankClosed();
      ClosedThenOpen(" ", [], "NOT", [Token(NOT, "NOT")]);
      assert " " + "NOT" == " NOT" && [] + [Token(NOT, "NOT")] == [Token(NOT, "NOT")];
      OpenThenClosed(" NOT", [Token(NOT, "NOT")], mid, tm);
    } else {
      assert Negation(negated) + mid == mid && NotTokens(negated) + tm == tm;
    }
  }

  // ----- Leaves

  lemma LeafText(e: Expr)
    requires Printable(e) && (e.IsLiteral() || e.Column?)
    ensures Open(Print(e), TokensOf(e))
  {
    hide Open, Digits, Fixed, Doubled, IsName;
    match e
    case IntLit(i) =>
      IntOpen(if i < 0 then -i else i);
      if i < 0 {
        DigitsRead(-i);
        SignedOpen(Digits(-i), [Token(INTEGER_LITERAL, Digits(-i))]);
        assert [MINUS_SIGN] + [Token(INTEGER_LITERAL, Digits(-i))] == IntTokens(i);
      }
    case FloatLit(d) =>
      FixedOpen(if d < 0.0 then -d else d);
      if d < 0.0 {
        FixedStarts(-d);
        SignedOpen(Fixed(-d), [Token(FLOAT_LITERAL, Fixed(-d))]);
        assert [MINUS_SIGN] + [Token(FLOAT_LITERAL, Fixed(-d))] == FloatTokens(d);
      }
    case StringLit(t) => QuotedOpen(t);
    case BoolLit(b) => LiteralWords();
    case NullLit => LiteralWords();
    case Column(table, column, _) => ColumnText(table, column);
  }

  lemma NameToken(w: string)
    requires IsName(w)
    ensures WordToken(w) == Token(IDENTIFIER, w)
  {
    hide KeywordOf, Upper;
  }

  lemma ColumnText(table: string, column: string)
    requires (table == "" || IsName(table)) && IsName(column)
    ensures Open(Print(Column(table, column, -1)), TokensOf(Column(table, column, -1)))
  {
    hide Lex, WordToken, KeywordOf;
    NameToken(column);
    WordOpen(column);
    if table != "" {
      NameToken(table);
      SymbolClosed('.', DOT);
      PointIsNoDigit();
      forall rest | Ended(rest) ensures Lex(table + "." + column + rest) == TokensOf(Column(table, column, -1)) + Lex(rest) {
        var s := "." + (column + rest);
        assert table + "." + column + rest == table + s;
        WordStops(table, s);
        assert Lex(column + rest) == [Token(IDENTIFIER, column)] + Lex(rest);
      }
    }
  }

  /** A name directly in front of a parenthesis. */
  lemma CallStart(name: string)
    requires IsIdentifier(name)
    ensures Closed(name + "(", [WordToken(name), LP])
  {
    hide Lex, WordToken;
    SymbolClosed('(', LPAREN);
    forall rest ensures Lex(name + "(" + rest) == [WordToken(name), LP] + Lex(rest) {
      assert name + "(" + rest == name + ("(" + rest);
      WordStops(name, "(" + rest);
      assert Lex("(" + rest) == [LP] + Lex(rest);
    }
  }

  predicate IsIdentifier(w: string) {
    w != "" && IsIdentStart(w[0]) && forall k :: 0 <= k < |w| ==> IsIdentPart(w[k])
  }

  // ----- Compound expressions, given how their parts lex

  ghost predicate Lexes(e: Expr) {
    Open(Print(e), TokensOf(e))
  }

  lemma BinaryLexes(e: Expr, l: Expr, r: Expr, mid: string, tm: Tokens)
    requires IsCompound(e) && Lexes(l) && Lexes(r) && Closed(mid, tm) && mid != "" && Ends(mid[0])
    requires Print(e) == "(" + Print(l) + mid + Print(r) + ")"
    requires Inner(e) == TokensOf(l) + (tm + TokensOf(r))
    ensures Lexes(e)
  {
    hide Open, Closed, Ends, Print, TokensOf, Inner;
    BinaryText(Print(l), TokensOf(l), mid, tm, Print(r), TokensOf(r));
    CompoundTokens(e);
  }

  lemma CompareLexes(e: Expr)
    requires e.Compare? && Lexes(e.left) && Lexes(e.right)
    ensures Lexes(e)
  {
    hide Open, Closed, TokensOf, Lexes, ComparisonText, ComparisonToken;
    ComparisonOpen(e.cop);
    SpacedClosed(ComparisonText(e.cop), ComparisonToken(e.cop));
    BinaryLexes(e, e.left, e.right, Spaced(ComparisonText(e.cop)), [ComparisonToken(e.cop)]);
  }

  lemma ArithLexes(e: Expr)
    requires e.Arith? && Lexes(e.left) && Lexes(e.right)
    ensures Lexes(e)
  {
    hide Open, Closed, TokensOf, Lexes, ArithmeticText, ArithmeticToken;
    ArithmeticOpen(e.aop);
    SpacedClosed(ArithmeticText(e.aop), ArithmeticToken(e.aop));
    BinaryLexes(e, e.left, e.right, Spaced(ArithmeticText(e.aop)), [ArithmeticToken(e.aop)]);
  }

  lemma LogicalLexes(e: Expr)
    requires e.Logical? && Lexes(e.left) && Lexes(e.right)
    ensures Lexes(e)
  {
    hide Open, Closed, TokensOf, Lexes;
    OperatorWords();
    var w := if e.lop == And then "AND" else "OR";
    SpacedClosed(w, LogicalToken(e.lop));
    BinaryLexes(e, e.left, e.right, Spaced(w), [LogicalToken(e.lop)]);
  }

  lemma LikeLexes(e: Expr)
    requires e.Like? && Lexes(e.value) && Lexes(e.pattern)
    ensures Lexes(e)
  {
    hide Open, Closed, TokensOf, Lexes, Negation, NotTokens;
    OperatorWords();
    SpacedClosed("LIKE", Token(LIKE, "LIKE"));
    NegationText(e.negated, Spaced("LIKE"), [Token(LIKE, "LIKE")]);
    var mid, tm := Negation(e.negated) + Spaced("LIKE"), NotTokens(e.negated) + [Token(LIKE, "LIKE")];
    Regrouped(TokensOf(e.value), NotTokens(e.negated), [Token(LIKE, "LIKE")], TokensOf(e.pattern));
    BinaryLexes(e, e.value, e.pattern, mid, tm);
  }

  lemma Regrouped(a: Tokens, b: Tokens, c: Tokens, d: Tokens)
    ensures a + (b + (c + d)) == a + ((b + c) + d)
  {
  }

  lemma NotLexes(e: Expr)
    requires e.Not? && Lexes(e.operand)
    ensures Lexes(e)
  {
    hide Open, Closed, TokensOf;
    var x, tx := Print(e.operand), TokensOf(e.operand);
    OperatorWords();
    BlankClosed();
    SymbolClosed('(', LPAREN);
    ClosedThenOpen("(", [LP], "NOT", [Token(NOT, "NOT")]);
    OpenThenClosed("(" + "NOT", [LP] + [Token(NOT, "NOT")], " ", []);
    assert "(" + "NOT" + " " == "(NOT ";
    ClosedThenOpen("(NOT ", [LP] + [Token(NOT, "NOT")] + [], x, tx);
    CloseText("(NOT " + x, [LP] + [Token(NOT, "NOT")] + [] + tx);
    CompoundTokens(e);
    assert [LP] + [Token(NOT, "NOT")] + [] + tx + [RP] == [LP] + (([Token(NOT, "NOT")] + tx) + [RP]);
  }

  lemma NullLexes(e: Expr)
    requires e.IsNull? && Lexes(e.operand)
    ensures Lexes(e)
  {
    hide Open, Closed, TokensOf, NotTokens;
    var x, tx := Print(e.operand), TokensOf(e.operand);
    var tail := [Token(IS, "IS")] + NotTokens(e.negated) + [Token(NULL_LITERAL, "NULL")];
    var text := if e.negated then " IS NOT NULL)" else " IS NULL)";
    NullTail(e.negated);
    LeftText(x, tx, text, tail + [RP]);
    ClosedIsOpen("(" + x + text, [LP] + tx + (tail + [RP]));
    CompoundTokens(e);
    assert [LP] + tx + (tail + [RP]) == [LP] + ((tx + tail) + [RP]);
    assert Inner(e) == tx + tail;
    assert Print(e) == "(" + x + text;
  }

  lemma NullTail(negated: bool)
    ensures Closed(if negated then " IS NOT NULL)" else " IS NULL)", [Token(IS, "IS")] + NotTokens(negated) + [Token(NULL_LITERAL, "NULL")] + [RP])
  {
    hide Open, Closed;
    OperatorWords();
    LiteralWords();
    SpacedClosed("IS", Token(IS, "IS"));
    SpacedClosed("NOT", Token(NOT, "NOT"));
    BlankClosed();
    SymbolClosed(')', RPAREN);
    var tis, tnull := [Token(IS, "IS")], [Token(NULL_LITERAL, "NULL")];
    OpenThenClosed("NULL", tnull, ")", [RP]);
    if negated {
      ClosedThenOpen(" ", [], "IS", tis);
      OpenThenClosed(" " + "IS", [] + tis, Spaced("NOT"), [Token(NOT, "NOT")]);
      ClosedThenClosed(" " + "IS" + Spaced("NOT"), [] + tis + [Token(NOT, "NOT")], "NULL" + ")", tnull + [RP]);
      assert " " + "IS" + Spaced("NOT") + ("NULL" + ")") == " IS NOT NULL)";
      assert [] + tis + [Token(NOT, "NOT")] + (tnull + [RP]) == tis + NotTokens(true) + tnull + [RP];
    } else {
      ClosedThenClosed(Spaced("IS"), tis, "NULL" + ")", tnull + [RP]);
      assert Spaced("IS") + ("NULL" + ")") == " IS NULL)";
      assert tis + (tnull + [RP]) == tis + NotTokens(false) + tnull + [RP];
    }
  }

  lemma BetweenLexes(e: Expr)
    requires e.Between? && Lexes(e.value) && Lexes(e.lo) && Lexes(e.hi)
    ensures Lexes(e)
  {
    hide Open, Closed, TokensOf, Negation, NotTokens, Inner;
    var v, lo, hi := Print(e.value), Print(e.lo), Print(e.hi);
    var tv, tlo, thi := TokensOf(e.value), TokensOf(e.lo), TokensOf(e.hi);
    var mid, tm := Negation(e.negated) + Spaced("BETWEEN"), NotTokens(e.negated) + [Token(BETWEEN, "BETWEEN")];
    var and := [Token(AND, "AND")];
    OperatorWords();
    SpacedClosed("BETWEEN", Token(BETWEEN, "BETWEEN"));
    SpacedClosed("AND", Token(AND, "AND"));
    NegationText(e.negated, Spaced("BETWEEN"), [Token(BETWEEN, "BETWEEN")]);
    LeftText(v, tv, mid, tm);
    ClosedThenOpen("(" + v + mid, [LP] + tv + tm, lo, tlo);
    OpenThenClosed("(" + v + mid + lo, [LP] + tv + tm + tlo, Spaced("AND"), and);
    ClosedThenOpen("(" + v + mid + lo + Spaced("AND"), [LP] + tv + tm + tlo + and, hi, thi);
    CloseText("(" + v + mid + lo + Spaced("AND") + hi, [LP] + tv + tm + tlo + and + thi);
    BetweenGroups(e);
    CompoundTokens(e);
  }

  lemma BetweenGroups(e: Expr)
    requires e.Between?
    ensures [LP] + TokensOf(e.value) + (NotTokens(e.negated) + [Token(BETWEEN, "BETWEEN")]) + TokensOf(e.lo) + [Token(AND, "AND")] + TokensOf(e.hi) + [RP] == [LP] + (Inner(e) + [RP])
  {
    hide TokensOf, NotTokens;
  }

  lemma InLexes(e: Expr)
    requires e.In? && Lexes(e.value) && Open(PrintList(e.items), ListTokens(e.items))
    ensures Lexes(e)
  {
    hide Open, Closed, TokensOf, Negation, NotTokens, Inner, Ends, ListTokens, PrintList;
    var v, tv := Print(e.value), TokensOf(e.value);
    var mid, tm := Negation(e.negated) + " IN (", NotTokens(e.negated) + [Token(IN, "IN"), LP];
    var xs, txs := PrintList(e.items), ListTokens(e.items);
    InWord();
    NegationText(e.negated, " IN (", [Token(IN, "IN"), LP]);
    LeftText(v, tv, mid, tm);
    ClosedThenOpen("(" + v + mid, [LP] + tv + tm, xs, txs);
    CloseText("(" + v + mid + xs, [LP] + tv + tm + txs);
    CloseText("(" + v + mid + xs + ")", [LP] + tv + tm + txs + [RP]);
    assert "(" + v + mid + xs + ")" + ")" == Print(e);
    InGroups(e);
    CompoundTokens(e);
  }

  lemma InWord()
    ensures Closed(" IN (", [Token(IN, "IN"), LP])
  {
    hide Open, Closed;
    OperatorWords();
    SymbolClosed('(', LPAREN);
    SpacedClosed("IN", Token(IN, "IN"));
    ClosedThenClosed(Spaced("IN"), [Token(IN, "IN")], "(", [LP]);
    assert Spaced("IN") + "(" == " IN (";
    assert [Token(IN, "IN")] + [LP] == [Token(IN, "IN"), LP];
  }

  lemma InGroups(e: Expr)
    requires e.In?
    ensures [LP] + TokensOf(e.value) + (NotTokens(e.negated) + [Token(IN, "IN"), LP]) + ListTokens(e.items) + [RP] + [RP] == [LP] + (Inner(e) + [RP])
  {
    hide TokensOf, NotTokens, ListTokens;
  }

  lemma CastLexes(e: Expr)
    requires e.Cast? && Lexes(e.arg)
    ensures Lexes(e)
  {
    hide Open, Closed, WordToken, TypeName, TypeToken;
    var x, tx, t := Print(e.arg), TokensOf(e.arg), TypeName(e.target);
    CastName();
    TypeOpen(e.target);
    SpacedClosed("AS", Token(AS, "AS"));
    SymbolClosed(')', RPAREN);
    ClosedThenOpen(Spaced("AS"), [Token(AS, "AS")], t, [TypeToken(e.target)]);
    CloseText(Spaced("AS") + t, [Token(AS, "AS")] + [TypeToken(e.target)]);
    ClosedThenOpen("CAST(", [Token(IDENTIFIER, "CAST"), LP], x, tx);
    OpenThenClosed("CAST(" + x, [Token(IDENTIFIER, "CAST"), LP] + tx, Spaced("AS") + t + ")", [Token(AS, "AS")] + [TypeToken(e.target)] + [RP]);
    ClosedIsOpen("CAST(" + x + (Spaced("AS") + t + ")"), [Token(IDENTIFIER, "CAST"), LP] + tx + ([Token(AS, "AS")] + [TypeToken(e.target)] + [RP]));
    assert [Token(AS, "AS")] + [TypeToken(e.target)] + [RP] == [Token(AS, "AS"), TypeToken(e.target), RP];
    assert [Token(IDENTIFIER, "CAST"), LP] + tx + [Token(AS, "AS"), TypeToken(e.target), RP] == TokensOf(e);
  }

  lemma CastName()
    ensures Closed("CAST(", [Token(IDENTIFIER, "CAST"), LP])
  {
    hide Closed, KeywordOf, Upper;
    CastIsItself();
    CastIsNoKeyword();
    assert WordToken("CAST") == Token(IDENTIFIER, "CAST");
    assert "CAST" + "(" == "CAST(";
    CallStart("CAST");
  }

  lemma CastIsNoKeyword()
    ensures KeywordOf("CAST").None?
  {
  }

  lemma CallLexes(e: Expr)
    requires e.Call? && IsName(e.name) && Open(PrintList(e.args), ListTokens(e.args))
    ensures Lexes(e)
  {
    hide Open, Closed, ListTokens, PrintList, WordToken, KeywordOf;
    NameToken(e.name);
    CallStart(e.name);
    var start := [Token(IDENTIFIER, e.name), LP];
    ClosedThenOpen(e.name + "(", start, PrintList(e.args), ListTokens(e.args));
    CloseText(e.name + "(" + PrintList(e.args), start + ListTokens(e.args));
    assert start + ListTokens(e.args) + [RP] == TokensOf(e);
  }

  // ----- Lists and branches

  lemma {:induction false} ListLexes(es: seq<Expr>)
    requires forall i :: 0 <= i < |es| ==> Lexes(es[i])
    ensures Open(PrintList(es), ListTokens(es))
  {
    hide Open, Closed, Print, TokensOf;
    if es == [] {
      EmptyText();
    } else if |es| > 1 {
      ListLexes(es[1..]);
      CommaText();
      var x, tx, rest, trest := Print(es[0]), TokensOf(es[0]), PrintList(es[1..]), ListTokens(es[1..]);
      assert Lexes(es[0]);
      OpenThenClosed(x, tx, ", ", [Token(COMMA, ",")]);
      ClosedThenOpen(x + ", ", tx + [Token(COMMA, ",")], rest, trest);
      assert tx + [Token(COMMA, ",")] + trest == tx + ([Token(COMMA, ",")] + trest);
    } else {
      assert Lexes(es[0]);
    }
  }

  lemma EmptyText()
    ensures Open("", [])
  {
    forall rest: string ensures Lex("" + rest) == [] + Lex(rest) {
      assert "" + rest == rest;
    }
  }

  lemma CommaText()
    ensures Closed(", ", [Token(COMMA, ",")])
  {
    hide Closed;
    SymbolClosed(',', COMMA);
    BlankClosed();
    ClosedThenClosed(",", [Token(COMMA, ",")], " ", []);
    assert "," + " " == ", " && [Token(COMMA, ",")] + [] == [Token(COMMA, ",")];
  }

  /** A branch starts with a space, so the text before it is ended. */
  ghost predicate BranchLexes(b: Branch) {
    Open(PrintBranch(b), BranchTokens(b))
  }

  lemma BranchText(b: Branch)
    requires Lexes(b.cond) && Lexes(b.then_)
    ensures BranchLexes(b)
  {
    hide Open, Closed, Print, TokensOf;
    CaseWords();
    SpacedClosed("WHEN", Token(WHERE, "WHEN"));
    SpacedClosed("THEN", Token(THEN, "THEN"));
    var c, tc, t, tt := Print(b.cond), TokensOf(b.cond), Print(b.then_), TokensOf(b.then_);
    var when, then_ := [Token(WHERE, "WHEN")], [Token(THEN, "THEN")];
    ClosedThenOpen(Spaced("WHEN"), when, c, tc);
    OpenThenClosed(Spaced("WHEN") + c, when + tc, Spaced("THEN"), then_);
    ClosedThenOpen(Spaced("WHEN") + c + Spaced("THEN"), when + tc + then_, t, tt);
    assert when + tc + then_ + tt == BranchTokens(b);
  }

  lemma StillEnded(b: string, rest: string)
    requires Ended(rest) && (b == "" || b[0] == ' ')
    ensures Ended(b + rest)
  {
    assert b == "" ==> b + rest == rest;
  }

  /** Open texts in a row, each starting with a space. */
  lemma OpenThenOpen(a: string, ta: Tokens, b: string, tb: Tokens)
    requires Open(a, ta) && Open(b, tb) && (b == "" || b[0] == ' ')
    ensures Open(a + b, ta + tb)
  {
    hide Lex, Ended;
    forall rest | Ended(rest) ensures Lex(a + b + rest) == ta + tb + Lex(rest) {
      StillEnded(b, rest);
      assert a + b + rest == a + (b + rest);
      assert Lex(b + rest) == tb + Lex(rest);
      assert ta + (tb + Lex(rest)) == ta + tb + Lex(rest);
    }
  }

  lemma {:induction false} BranchesLex(bs: seq<Branch>)
    requires forall i :: 0 <= i < |bs| ==> BranchLexes(bs[i])
    ensures Open(PrintBranches(bs), BranchesTokens(bs))
    ensures PrintBranches(bs) == "" || PrintBranches(bs)[0] == ' '
  {
    hide Open, BranchTokens;
    if bs == [] {
      EmptyText();
    } else {
      BranchesLex(bs[1..]);
      assert BranchLexes(bs[0]);
      OpenThenOpen(PrintBranch(bs[0]), BranchTokens(bs[0]), PrintBranches(bs[1..]), BranchesTokens(bs[1..]));
    }
  }

  lemma ElseLexes(orElse: Option<Expr>)
    requires orElse.Some? ==> Lexes(orElse.value)
    ensures Open(PrintElse(orElse), ElseTokens(orElse))
    ensures PrintElse(orElse) == "" || PrintElse(orElse)[0] == ' '
  {
    hide Open, Closed, Print, TokensOf;
    if orElse.None? {
      EmptyText();
    } else {
      CaseWords();
      SpacedClosed("ELSE", Token(ELSE, "ELSE"));
      ClosedThenOpen(Spaced("ELSE"), [Token(ELSE, "ELSE")], Print(orElse.value), TokensOf(orElse.value));
    }
  }

  lemma CaseLexes(e: Expr)
    requires e.Case? && (forall i :: 0 <= i < |e.branches| ==> BranchLexes(e.branches[i]))
    requires e.orElse.Some? ==> Lexes(e.orElse.value)
    ensures Lexes(e)
  {
    hide Open, Closed, PrintBranches, BranchesTokens, PrintElse, ElseTokens, BranchLexes;
    var bs, tbs, el, tel := PrintBranches(e.branches), BranchesTokens(e.branches), PrintElse(e.orElse), ElseTokens(e.orElse);
    var start, end := [Token(CASE, "CASE")], [Token(END, "END")];
    BranchesLex(e.branches);
    ElseLexes(e.orElse);
    CaseWords();
    BlankClosed();
    ClosedThenOpen(" ", [], "END", end);
    assert " " + "END" == " END" && [] + end == end;
    OpenThenOpen("CASE", start, bs, tbs);
    OpenThenOpen("CASE" + bs, start + tbs, el, tel);
    OpenThenOpen("CASE" + bs + el, start + tbs + tel, " END", end);
    assert start + tbs + tel + end == TokensOf(e);
  }

  // ----- The induction over expressions

  /** The printed text of an expression lexes to its tokens, whatever ends it. */
  lemma {:induction false} PrintLexes(e: Expr)
    requires Printable(e)
    ensures Lexes(e)
    decreases e, 1
  {
    hide Open, Print, TokensOf, Lexes, IsName;
    match e
    case Compare(_, l, r) => PrintLexes(l); PrintLexes(r); CompareLexes(e);
    case Arith(_, l, r) => PrintLexes(l); PrintLexes(r); ArithLexes(e);
    case Logical(_, l, r) => PrintLexes(l); PrintLexes(r); LogicalLexes(e);
    case Like(v, p, _) => PrintLexes(v); PrintLexes(p); LikeLexes(e);
    case Not(x) => PrintLexes(x); NotLexes(e);
    case IsNull(x, _) => PrintLexes(x); NullLexes(e);
    case Between(v, lo, hi, _) => PrintLexes(v); PrintLexes(lo); PrintLexes(hi); BetweenLexes(e);
    case In(v, items, _) => PrintLexes(v); AllLex(items); ListLexes(items); InLexes(e);
    case Cast(x, _) => PrintLexes(x); CastLexes(e);
    case Call(_, args) => AllLex(args); ListLexes(args); CallLexes(e);
    case Case(bs, orElse) => CasePartsLex(e); CaseLexes(e);
    case _ => LeafLexes(e);
  }

  lemma LeafLexes(e: Expr)
    requires Printable(e) && !IsCompound(e) && !e.Cast? && !e.Call? && !e.Case?
    ensures Lexes(e)
  {
    hide Open, Print, TokensOf;
    LeafText(e);
  }

  lemma {:induction false} AllLex(es: seq<Expr>)
    requires forall i :: 0 <= i < |es| ==> Printable(es[i])
    ensures forall i :: 0 <= i < |es| ==> Lexes(es[i])
    decreases es, 0
  {
    hide Lexes, Printable;
    forall i | 0 <= i < |es| ensures Lexes(es[i]) {
      PrintLexes(es[i]);
    }
  }

  lemma {:induction false} CasePartsLex(e: Expr)
    requires e.Case? && Printable(e)
    ensures forall i :: 0 <= i < |e.branches| ==> BranchLexes(e.branches[i])
    ensures e.orElse.Some? ==> Lexes(e.orElse.value)
    decreases e, 0
  {
    hide Lexes, BranchLexes, Printable;
    CaseParts(e);
    forall i | 0 <= i < |e.branches| ensures BranchLexes(e.branches[i]) {
      OneBranchLexes(e.branches[i]);
    }
    if e.orElse.Some? {
      PrintLexes(e.orElse.value);
    }
  }

  lemma {:induction false} OneBranchLexes(b: Branch)
    requires PrintableBranch(b)
    ensures BranchLexes(b)
    decreases b, 0
  {
    hide Lexes, BranchLexes, Printable;
    PrintLexes(b.cond);
    PrintLexes(b.then_);
    BranchText(b);
  }
}
