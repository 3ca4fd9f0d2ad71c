/** The parser reads every spelling of an expression back as that expression: with the
    parentheses its grammar needs, and with any others. */
module SqlReading {
  import opened Values
  import opened SqlAst
  import opened SqlLexer
  import opened SqlParser
  import opened SqlPrinter
  import opened SqlTokens
  import opened SqlSpelling

  // ----- Where each level of the grammar stops

  /** A token that makes a name neither a call nor a qualifier. */
  predicate Quiet(ts: Tokens) {
    Head(ts) != LPAREN && Head(ts) != DOT
  }

  predicate StopsTerm(ts: Tokens) {
    Quiet(ts) && ToMultiplicative(Head(ts)).None?
  }

  predicate StopsSum(ts: Tokens) {
    StopsTerm(ts) && ToAdditive(Head(ts)).None?
  }

  predicate StopsComparison(ts: Tokens) {
    && StopsSum(ts) && ToComparison(Head(ts)).None?
    && Head(ts) != IS && Head(ts) != NOT && Head(ts) != IN && Head(ts) != BETWEEN && Head(ts) != LIKE
  }

  predicate StopsAll(ts: Tokens) {
    StopsComparison(ts) && Head(ts) != AND && Head(ts) != OR
  }

  /** What may follow an expression of a level. */
  predicate Stops(k: nat, us: Tokens) {
    if k == 0 then StopsComparison(us) && Head(us) != AND
    else if k <= 3 then StopsComparison(us)
    else if k == 4 then StopsTerm(us)
    else Quiet(us)
  }

  /** What starts an expression: NOT, or the beginning of an operand. */
  predicate Opens(k: TokenType) {
    k == LPAREN || k == CASE || k == IDENTIFIER || k == MINUS || IsLiteralToken(k)
  }

  /** The grammar's level k. */
  function ParseAt(k: nat, ts: Tokens): Parsed<Expr> {
    if k == 0 then ParseOr(ts)
    else if k == 1 then ParseAnd(ts)
    else if k == 2 then ParseNot(ts)
    else if k == 3 then ParseComparison(ts)
    else if k == 4 then ParseAdditive(ts)
    else if k == 5 then ParseMultiplicative(ts)
    else ParseUnary(ts)
  }

  /** What level k makes of the tokens behind its first operand: chains go on to the right. */
  function RestAt(k: nat, x: Expr, us: Tokens): Parsed<Expr> {
    if k == 0 then OrRest(x, us)
    else if k == 1 then AndRest(x, us)
    else if k == 4 then AdditiveRest(x, us)
    else if k == 5 then MultiplicativeRest(x, us)
    else Done(x, us)
  }

  lemma LiftOne(ts: Tokens, x: Expr, us: Tokens, m: nat)
    requires 1 <= m <= 6 && ParseAt(m, ts) == RestAt(m, x, us) && Stops(m - 1, us)
    requires m == 3 ==> Head(ts) != NOT
    ensures ParseAt(m - 1, ts) == RestAt(m - 1, x, us)
  {
    if m == 6 {
      hide ParseUnary;
    } else if m == 5 {
      hide ParseMultiplicative;
    } else if m == 4 {
      hide ParseAdditive;
      assert ComparisonRest(x, us) == ComparisonBody(x, false, us) == Done(x, us);
    } else if m == 3 {
      hide ParseComparison;
    } else if m == 2 {
      hide ParseNot;
    } else {
      hide ParseAnd;
    }
  }

  /** An expression that binds tightly is also one of every looser level. */
  lemma {:induction false} Lift(ts: Tokens, x: Expr, us: Tokens, m: nat, k: nat)
    requires k <= m <= 6 && ParseAt(m, ts) == RestAt(m, x, us) && Stops(k, us)
    requires k <= 2 < m ==> Head(ts) != NOT
    ensures ParseAt(k, ts) == RestAt(k, x, us)
    decreases m
  {
    hide ParseAt, RestAt, Stops;
    if k < m {
      StopsTighter(k, m - 1, us);
      LiftOne(ts, x, us, m);
      Lift(ts, x, us, m - 1, k);
    }
  }

  lemma StopsTighter(k: nat, m: nat, us: Tokens)
    requires k <= m && Stops(k, us)
    ensures Stops(m, us)
  {
  }

  /** Parentheses around anything that parses as a whole expression. */
  lemma Parentheses(inner: Tokens, e: Expr, rest: Tokens)
    requires inner != [] && Head(inner) != SELECT
    requires ParseOr(inner + ([RP] + rest)) == Done(e, [RP] + rest)
    ensures ParseUnary([LP] + (inner + [RP]) + rest) == Done(e, rest)
  {
    hide ParseOr;
    var ts := [LP] + (inner + [RP]) + rest;
    assert ts[1..] == inner + ([RP] + rest);
    assert ([RP] + rest)[1..] == rest;
    assert ParseParenthesized(ts[1..]) == Done(e, rest);
    assert Second(ts) == Head(inner);
    assert ParsePrimary(ts) == Done(e, rest);
  }

  /** How an expression's tokens begin. */
  lemma {:induction false} SpellStarts(e: Expr, k: nat, par: Policy)
    requires Printable(e) && k <= 6
    ensures var ts := Spell(e, k, par);
      ts != [] && (Opens(Head(ts)) || (k <= 2 && Level(e) <= 2 && Head(ts) == NOT))
    decreases e, 1
  {
    hide Bare, Level, Printable;
    BareStarts(e, par);
  }

  lemma {:induction false} BareStarts(e: Expr, par: Policy)
    requires Printable(e)
    ensures Bare(e, par) != [] && (Opens(Head(Bare(e, par))) || (Level(e) <= 2 && Head(Bare(e, par)) == NOT))
    decreases e, 0
  {
    hide Spell, Digits, Fixed, ListTokens, SpellList, SpellBranches, SpellElse;
    match e
    case Compare(_, l, _) => SpellStarts(l, 4, par);
    case Arith(_, l, _) => SpellStarts(l, Level(e), par);
    case Logical(_, l, _) => SpellStarts(l, Level(e), par);
    case IsNull(x, _) => SpellStarts(x, 4, par);
    case Between(v, _, _, _) => SpellStarts(v, 4, par);
    case Like(v, _, _) => SpellStarts(v, 4, par);
    case In(v, _, _) => SpellStarts(v, 4, par);
    case _ =>
  }

  lemma HeadOf(a: Tokens, us: Tokens)
    requires a != []
    ensures Head(a + us) == Head(a)
  {
  }

  // ----- Literals

  lemma IntReads(i: int, rest: Tokens)
    requires -INT64_MAX <= i <= INT64_MAX
    ensures ParseLiteral(IntTokens(i) + rest) == Done(IntLit(i), rest)
    ensures ParseUnary(IntTokens(i) + rest) == Done(IntLit(i), rest)
  {
    hide Digits, DigitsValue;
    var a := if i < 0 then -i else i;
    DigitsRead(a);
    var digits := Token(INTEGER_LITERAL, Digits(a));
    assert MakeLiteral(digits) == Some(IntLit(a));
    UnsignedReads(digits, IntLit(a), rest);
    NegativeReads(digits, IntLit(a), rest);
  }

  lemma FloatReads(d: real, rest: Tokens)
    ensures ParseLiteral(FloatTokens(d) + rest) == Done(FloatLit(Rounded(d)), rest)
    ensures ParseUnary(FloatTokens(d) + rest) == Done(FloatLit(Rounded(d)), rest)
  {
    hide Fixed, Millionths, MakeLiteral, ParseLiteral, ParseUnary;
    var a := if d < 0.0 then -d else d;
    var digits, x := Token(FLOAT_LITERAL, Fixed(a)), FloatLit(Millionths(a) as real / 1000000.0);
    FloatValue(a);
    UnsignedReads(digits, x, rest);
    NegativeReads(digits, x, rest);
  }

  lemma FloatValue(a: real)
    requires a >= 0.0
    ensures MakeLiteral(Token(FLOAT_LITERAL, Fixed(a))) == Some(FloatLit(Millionths(a) as real / 1000000.0))
  {
    hide Fixed, Millionths, DecimalValue, DigitLength, NumberLength, MakeLiteral;
    FixedRead(a);
    FloatToken(Token(FLOAT_LITERAL, Fixed(a)));
  }

  lemma FloatToken(t: Token)
    requires t.kind == FLOAT_LITERAL
    ensures MakeLiteral(t) == Some(FloatLit(DecimalValue(t.lexeme)))
  {
    hide DecimalValue;
  }

  lemma UnsignedReads(t: Token, e: Expr, rest: Tokens)
    requires IsLiteralToken(t.kind) && MakeLiteral(t) == Some(e)
    ensures ParseLiteral([t] + rest) == Done(e, rest)
    ensures ParseUnary([t] + rest) == Done(e, rest)
  {
    hide MakeLiteral;
    assert ([t] + rest)[1..] == rest;
  }

  lemma NegativeReads(t: Token, e: Expr, rest: Tokens)
    requires (t.kind == INTEGER_LITERAL || t.kind == FLOAT_LITERAL) && MakeLiteral(t) == Some(e)
    ensures ParseLiteral([MINUS_SIGN, t] + rest) == Done(Negate(e), rest)
    ensures ParseUnary([MINUS_SIGN, t] + rest) == Done(Negate(e), rest)
  {
    hide MakeLiteral, Negate;
    var ts := [MINUS_SIGN, t] + rest;
    assert ts[1..] == [t] + rest;
    UnsignedReads(t, e, rest);
  }

  lemma LiteralReads(e: Expr, rest: Tokens)
    requires e.IsLiteral() && Printable(e)
    ensures ParseLiteral(TokensOf(e) + rest) == Done(Reloaded(e), rest)
    ensures ParseUnary(TokensOf(e) + rest) == Done(Reloaded(e), rest)
  {
    hide ParseLiteral, ParseUnary, IntTokens, FloatTokens, Rounded, MakeLiteral;
    match e
    case IntLit(i) => IntReads(i, rest);
    case FloatLit(d) => FloatReads(d, rest);
    case StringLit(_) => WordReads(e, rest);
    case BoolLit(_) => WordReads(e, rest);
    case NullLit => WordReads(e, rest);
  }

  lemma WordReads(e: Expr, rest: Tokens)
    requires e.StringLit? || e.BoolLit? || e.NullLit?
    ensures ParseLiteral(TokensOf(e) + rest) == Done(e, rest)
    ensures ParseUnary(TokensOf(e) + rest) == Done(e, rest)
  {
    hide ParseLiteral, ParseUnary;
    UnsignedReads(TokensOf(e)[0], e, rest);
  }

  // ----- Names

  lemma ColumnReads(table: string, column: string, index: int, rest: Tokens)
    requires Quiet(rest)
    ensures ParseUnary(TokensOf(Column(table, column, index)) + rest) == Done(Column(table, column, -1), rest)
  {
    var ts := TokensOf(Column(table, column, index)) + rest;
    if table == "" {
      assert ts[1..] == rest;
    } else {
      assert ts[2..] == [Token(IDENTIFIER, column)] + rest;
      assert ts[3..] == rest;
    }
    assert ParseColumn(ts) == Done(Column(table, column, -1), rest);
    assert Head(ts) == IDENTIFIER && Second(ts) != LPAREN;
    hide ParseColumn, TokensOf;
    NameReads(ts);
  }

  lemma NameReads(ts: Tokens)
    requires Head(ts) == IDENTIFIER && Second(ts) != LPAREN
    ensures ParseUnary(ts) == ParseColumn(ts)
  {
    hide ParseColumn;
    assert ParsePrimary(ts) == ParseColumn(ts);
  }

  // ----- Compound expressions, given how their parts read. In each lemma a, b, c are the
  // parts' tokens, x, y, z what they read as, and `end` what follows the expression.

  lemma OrSteps(a: Tokens, b: Tokens, x: Expr, y: Expr, end: Tokens)
    requires var us := [Token(OR, "OR")] + (b + end); ParseOr(a + us) == OrRest(x, us)
    requires ParseAnd(b + end) == Done(y, end)
    ensures ParseOr(a + ([Token(OR, "OR")] + b) + end) == OrRest(Logical(Or, x, y), end)
  {
    hide ParseAnd, ParseOr;
    var us := [Token(OR, "OR")] + (b + end);
    assert us[1..] == b + end;
    assert a + ([Token(OR, "OR")] + b) + end == a + us;
  }

  lemma AndSteps(a: Tokens, b: Tokens, x: Expr, y: Expr, end: Tokens)
    requires var us := [Token(AND, "AND")] + (b + end); ParseAnd(a + us) == AndRest(x, us)
    requires ParseNot(b + end) == Done(y, end)
    ensures ParseAnd(a + ([Token(AND, "AND")] + b) + end) == AndRest(Logical(And, x, y), end)
  {
    hide ParseAnd, ParseNot;
    var us := [Token(AND, "AND")] + (b + end);
    assert us[1..] == b + end;
    assert a + ([Token(AND, "AND")] + b) + end == a + us;
  }

  lemma SumSteps(op: ArithmeticOp, a: Tokens, b: Tokens, x: Expr, y: Expr, end: Tokens)
    requires op == Add || op == Sub
    requires var us := [ArithmeticToken(op)] + (b + end); ParseAdditive(a + us) == AdditiveRest(x, us)
    requires ParseMultiplicative(b + end) == Done(y, end)
    ensures ParseAdditive(a + ([ArithmeticToken(op)] + b) + end) == AdditiveRest(Arith(op, x, y), end)
  {
    hide ParseAdditive, ParseMultiplicative;
    var us := [ArithmeticToken(op)] + (b + end);
    assert us[1..] == b + end && ToAdditive(Head(us)) == Some(op);
    assert a + ([ArithmeticToken(op)] + b) + end == a + us;
  }

  lemma ProductSteps(op: ArithmeticOp, a: Tokens, b: Tokens, x: Expr, y: Expr, end: Tokens)
    requires op == Mul || op == Div
    requires var us := [ArithmeticToken(op)] + (b + end); ParseMultiplicative(a + us) == MultiplicativeRest(x, us)
    requires ParseUnary(b + end) == Done(y, end)
    ensures ParseMultiplicative(a + ([ArithmeticToken(op)] + b) + end) == MultiplicativeRest(Arith(op, x, y), end)
  {
    hide ParseUnary, ParseMultiplicative;
    var us := [ArithmeticToken(op)] + (b + end);
    assert us[1..] == b + end && ToMultiplicative(Head(us)) == Some(op);
    assert a + ([ArithmeticToken(op)] + b) + end == a + us;
  }

  /** A comparison, given its left operand and what the comparison level makes of the rest. */
  lemma Compared(ts: Tokens, us: Tokens, x: Expr, e: Expr, end: Tokens)
    requires ParseAdditive(ts) == Done(x, us) && ComparisonRest(x, us) == Done(e, end)
    ensures ParseComparison(ts) == Done(e, end)
  {
    hide ParseAdditive, ComparisonRest;
  }

  lemma CompareRest(op: ComparisonOp, us: Tokens, x: Expr, y: Expr, end: Tokens)
    requires ParseAdditive(us) == Done(y, end)
    ensures ComparisonRest(x, [ComparisonToken(op)] + us) == Done(Compare(op, x, y), end)
  {
    hide ParseAdditive;
    var ts := [ComparisonToken(op)] + us;
    assert ts[1..] == us && ToComparison(Head(ts)) == Some(op);
    assert ComparisonBody(x, false, ts) == Done(Compare(op, x, y), end);
  }

  lemma NegatedReads(ts: Tokens, x: Expr, end: Tokens)
    requires Head(ts) == NOT && ParseNot(ts[1..]) == Done(x, end)
    ensures ParseNot(ts) == Done(Not(x), end)
  {
    hide ParseComparison;
  }

  lemma NullRest(negated: bool, x: Expr, end: Tokens)
    ensures NullTest(x, NotTokens(negated) + ([Token(NULL_LITERAL, "NULL")] + end)) == Done(IsNull(x, negated), end)
  {
    var us := [Token(NULL_LITERAL, "NULL")] + end;
    assert us[1..] == end;
    if negated {
      assert (NotTokens(negated) + us)[1..] == us;
    } else {
      assert NotTokens(negated) + us == us;
    }
  }

  /** NOT in front of IN, BETWEEN or LIKE belongs to the comparison. */
  lemma NegationRest(negated: bool, x: Expr, e: Expr, us: Tokens, end: Tokens)
    requires Head(us) == IN || Head(us) == BETWEEN || Head(us) == LIKE
    requires ComparisonBody(x, negated, us) == Done(e, end)
    ensures ComparisonRest(x, NotTokens(negated) + us) == Done(e, end)
  {
    hide ComparisonBody;
    if negated {
      assert (NotTokens(negated) + us)[1..] == us;
    } else {
      assert NotTokens(negated) + us == us;
    }
  }

  lemma BetweenSteps(negated: bool, b: Tokens, c: Tokens, x: Expr, y: Expr, z: Expr, end: Tokens)
    requires var us := [Token(AND, "AND")] + (c + end); ParseAdditive(b + us) == Done(y, us)
    requires ParseAdditive(c + end) == Done(z, end)
    ensures ComparisonBody(x, negated, [Token(BETWEEN, "BETWEEN")] + (b + ([Token(AND, "AND")] + (c + end)))) == Done(Between(x, y, z, negated), end)
  {
    hide ParseAdditive;
    var us := [Token(AND, "AND")] + (c + end);
    assert us[1..] == c + end;
    assert ([Token(BETWEEN, "BETWEEN")] + (b + us))[1..] == b + us;
  }

  lemma LikeSteps(negated: bool, b: Tokens, x: Expr, y: Expr, end: Tokens)
    requires ParseAdditive(b + end) == Done(y, end)
    ensures ComparisonBody(x, negated, [Token(LIKE, "LIKE")] + (b + end)) == Done(Like(x, y, negated), end)
  {
    hide ParseAdditive;
    assert ([Token(LIKE, "LIKE")] + (b + end))[1..] == b + end;
  }

  lemma InSteps(negated: bool, b: Tokens, x: Expr, items: seq<Expr>, end: Tokens)
    requires ParseItems([], b + ([RP] + end)) == Done(items, [RP] + end) && Head(b + ([RP] + end)) != SELECT
    ensures ComparisonBody(x, negated, [Token(IN, "IN"), LP] + (b + ([RP] + end))) == Done(In(x, items, negated), end)
  {
    hide ParseItems;
    var us := b + ([RP] + end);
    var vs := [Token(IN, "IN"), LP] + us;
    assert vs[1..] == [LP] + us;
    assert ([LP] + us)[1..] == us;
    assert ([RP] + end)[1..] == end;
    assert Second([LP] + us) == Head(us);
  }

  // ----- The main induction

  /** Every spelling of an expression is read as that expression, at each level that the spelling
      was made for, whatever may follow there. */
  lemma {:induction false} SpellReads(e: Expr, k: nat, par: Policy, us: Tokens)
    requires Printable(e) && k <= 6 && Stops(k, us)
    ensures ParseAt(k, Spell(e, k, par) + us) == RestAt(k, Reloaded(e), us)
    decreases e, 3
  {
    hide ParseAt, RestAt, Stops, Bare, Printable, Reloaded, Level, Opens;
    var ts := Spell(e, k, par);
    SpellStarts(e, k, par);
    BareStarts(e, par);
    HeadOf(ts, us);
    if Level(e) < k || par(e, k) {
      GroupReads(e, par, us);
      HeadOf([LP], Bare(e, par) + [RP] + us);
      assert ts + us == [LP] + (Bare(e, par) + [RP] + us);
      Lift(ts + us, Reloaded(e), us, 6, k);
    } else {
      StopsTighter(k, Level(e), us);
      BareReads(e, par, us);
      OpensNotNot(Head(ts));
      Lift(ts + us, Reloaded(e), us, Level(e), k);
    }
  }

  lemma OpensNotNot(k: TokenType)
    ensures Opens(k) ==> k != NOT && k != SELECT && k != RPAREN
  {
  }

  /** In parentheses an expression is an operand of any level. */
  lemma {:induction false} GroupReads(e: Expr, par: Policy, us: Tokens)
    requires Printable(e)
    ensures ParseAt(6, [LP] + (Bare(e, par) + [RP]) + us) == RestAt(6, Reloaded(e), us)
    decreases e, 2
  {
    hide ParseAt, RestAt, Bare, Printable, Reloaded, Level, Opens, Stops, ParseOr, ParseUnary;
    var end := [RP] + us;
    BareStarts(e, par);
    HeadOf(Bare(e, par), end);
    OpensNotNot(Head(Bare(e, par)));
    ClosingStops(us);
    BareReads(e, par, end);
    Lift(Bare(e, par) + end, Reloaded(e), end, Level(e), 0);
    AtEnds(Bare(e, par) + end, Reloaded(e), end);
    Parentheses(Bare(e, par), Reloaded(e), us);
    AtSix([LP] + (Bare(e, par) + [RP]) + us, Reloaded(e), us);
  }

  lemma ClosingStops(us: Tokens)
    ensures StopsAll([RP] + us) && forall k: nat :: Stops(k, [RP] + us)
  {
  }

  /** At the end of a whole expression no chain goes on. */
  lemma AtEnds(ts: Tokens, x: Expr, us: Tokens)
    requires StopsAll(us)
    ensures ParseAt(0, ts) == RestAt(0, x, us) ==> ParseOr(ts) == Done(x, us)
    ensures Stops(0, us)
  {
    hide ParseOr;
  }

  lemma AtSix(ts: Tokens, x: Expr, us: Tokens)
    ensures ParseUnary(ts) == Done(x, us) ==> ParseAt(6, ts) == RestAt(6, x, us)
  {
    hide ParseUnary;
  }

  /** A whole expression. */
  lemma {:induction false} WholeReads(e: Expr, par: Policy, us: Tokens)
    requires Printable(e) && StopsAll(us)
    ensures ParseOr(Spell(e, 0, par) + us) == Done(Reloaded(e), us)
    decreases e, 4
  {
    hide ParseOr, ParseAt, RestAt, Stops, StopsAll, Spell, Printable, Reloaded;
    AtEnds(Spell(e, 0, par) + us, Reloaded(e), us);
    SpellReads(e, 0, par, us);
  }

  /** An operand of a comparison. */
  lemma {:induction false} SumReads(e: Expr, par: Policy, us: Tokens)
    requires Printable(e) && StopsSum(us)
    ensures ParseAdditive(Spell(e, 4, par) + us) == Done(Reloaded(e), us)
    decreases e, 4
  {
    hide ParseAdditive, Spell, Printable, Reloaded;
    SpellReads(e, 4, par, us);
  }

  lemma {:induction false} BareReads(e: Expr, par: Policy, us: Tokens)
    requires Printable(e) && Stops(Level(e), us)
    ensures ParseAt(Level(e), Bare(e, par) + us) == RestAt(Level(e), Reloaded(e), us)
    decreases e, 1
  {
    hide ParseUnary, ParseComparison, ParseAdditive, ParseMultiplicative, ParseOr, ParseAnd, ParseNot, Bare, Printable, Reloaded, TokensOf;
    if e.Logical? {
      LogicalReads(e, par, us);
    } else if e.Arith? {
      ArithReads(e, par, us);
    } else if e.Not? {
      NotReads(e, par, us);
    } else if e.Cast? {
      CastReads(e, par, us);
    } else if e.Call? {
      CallReads(e, par, us);
    } else if e.Case? {
      CaseReads(e, par, us);
    } else if IsCompound(e) {
      ComparisonReads(e, par, us);
    } else {
      AtomReads(e, par, us);
    }
  }

  lemma AtomReads(e: Expr, par: Policy, us: Tokens)
    requires Printable(e) && Quiet(us) && !IsCompound(e) && !e.Cast? && !e.Call? && !e.Case?
    ensures ParseUnary(Bare(e, par) + us) == Done(Reloaded(e), us)
  {
    hide ParseUnary, TokensOf;
    if e.Column? {
      ColumnReads(e.table, e.column, e.index, us);
    } else {
      LiteralReads(e, us);
    }
  }

  /** A binary operator between its operands. */
  lemma OperatorTokens(e: Expr, par: Policy, us: Tokens)
    ensures e.Logical? ==> Bare(e, par) + us == Spell(e.left, Level(e), par) + ([LogicalToken(e.lop)] + Spell(e.right, Level(e) + 1, par)) + us
    ensures e.Arith? ==> Bare(e, par) + us == Spell(e.left, Level(e), par) + ([ArithmeticToken(e.aop)] + Spell(e.right, Level(e) + 1, par)) + us
    ensures e.Compare? ==> Bare(e, par) + us == Spell(e.left, 4, par) + ([ComparisonToken(e.cop)] + (Spell(e.right, 4, par) + us))
  {
    hide Spell, Level;
    if e.Compare? {
      Regroup(Spell(e.left, 4, par), [ComparisonToken(e.cop)], Spell(e.right, 4, par), us);
    }
  }

  lemma {:induction false} LogicalReads(e: Expr, par: Policy, us: Tokens)
    requires e.Logical? && Printable(e) && Stops(Level(e), us)
    ensures ParseAt(Level(e), Bare(e, par) + us) == RestAt(Level(e), Reloaded(e), us)
    decreases e, 0
  {
    hide Spell, Bare, ParseOr, ParseAnd, ParseNot, OrRest, AndRest;
    OperatorTokens(e, par, us);
    var k := Level(e);
    var a, b, x, y := Spell(e.left, k, par), Spell(e.right, k + 1, par), Reloaded(e.left), Reloaded(e.right);
    var vs := [LogicalToken(e.lop)] + (b + us);
    SpellReads(e.left, k, par, vs);
    SpellReads(e.right, k + 1, par, us);
    if e.lop == Or {
      ChainEnds(y, us);
      OrSteps(a, b, x, y, us);
    } else {
      AndSteps(a, b, x, y, us);
    }
  }

  lemma ChainEnds(y: Expr, us: Tokens)
    ensures Head(us) != AND ==> AndRest(y, us) == Done(y, us)
    ensures StopsTerm(us) ==> MultiplicativeRest(y, us) == Done(y, us)
  {
  }

  lemma {:induction false} ArithReads(e: Expr, par: Policy, us: Tokens)
    requires e.Arith? && Printable(e) && Stops(Level(e), us)
    ensures ParseAt(Level(e), Bare(e, par) + us) == RestAt(Level(e), Reloaded(e), us)
    decreases e, 0
  {
    hide Spell, Bare, ParseAdditive, ParseMultiplicative, ParseUnary, AdditiveRest, MultiplicativeRest;
    OperatorTokens(e, par, us);
    var k, op := Level(e), e.aop;
    var a, b, x, y := Spell(e.left, k, par), Spell(e.right, k + 1, par), Reloaded(e.left), Reloaded(e.right);
    var vs := [ArithmeticToken(op)] + (b + us);
    SpellReads(e.left, k, par, vs);
    SpellReads(e.right, k + 1, par, us);
    if op == Add || op == Sub {
      ChainEnds(y, us);
      SumSteps(op, a, b, x, y, us);
    } else {
      ProductSteps(op, a, b, x, y, us);
    }
  }

  lemma {:induction false} NotReads(e: Expr, par: Policy, us: Tokens)
    requires e.Not? && Printable(e) && StopsComparison(us)
    ensures ParseNot(Bare(e, par) + us) == Done(Reloaded(e), us)
    decreases e, 0
  {
    hide Spell, ParseNot, StopsComparison;
    var ts := Bare(e, par) + us;
    assert Head(ts) == NOT && ts[1..] == Spell(e.operand, 2, par) + us;
    hide Bare;
    SpellReads(e.operand, 2, par, us);
    NegatedReads(ts, Reloaded(e.operand), us);
  }

  lemma {:induction false} ComparisonReads(e: Expr, par: Policy, us: Tokens)
    requires (e.Compare? || e.IsNull? || e.Between? || e.Like? || e.In?) && Printable(e) && StopsComparison(us)
    ensures ParseComparison(Bare(e, par) + us) == Done(Reloaded(e), us)
    decreases e, 0
  {
    hide Bare, ParseComparison, Printable, Reloaded, StopsComparison;
    match e
    case Compare(_, _, _) => CompareReads(e, par, us);
    case IsNull(_, _) => NullReads(e, par, us);
    case Between(_, _, _, _) => BetweenReads(e, par, us);
    case Like(_, _, _) => LikeReads(e, par, us);
    case In(_, _, _) => InReads(e, par, us);
  }

  lemma {:induction false} CompareReads(e: Expr, par: Policy, us: Tokens)
    requires e.Compare? && Printable(e) && StopsComparison(us)
    ensures ParseComparison(Bare(e, par) + us) == Done(Reloaded(e), us)
    decreases e, -1
  {
    hide Spell, Bare, StopsComparison, ParseAdditive, ParseComparison, ComparisonRest;
    var a, b, x, y := Spell(e.left, 4, par), Spell(e.right, 4, par), Reloaded(e.left), Reloaded(e.right);
    var vs := [ComparisonToken(e.cop)] + (b + us);
    OperatorEnds(e.cop, b + us);
    ComparisonStopsSum(us);
    SumReads(e.left, par, vs);
    SumReads(e.right, par, us);
    CompareRest(e.cop, b + us, x, y, us);
    OperatorTokens(e, par, us);
    Compared(a + vs, vs, x, Reloaded(e), us);
  }

  lemma OperatorEnds(op: ComparisonOp, us: Tokens)
    ensures StopsSum([ComparisonToken(op)] + us)
  {
  }

  lemma NullTokens(e: Expr, par: Policy, us: Tokens)
    requires e.IsNull?
    ensures Bare(e, par) + us == Spell(e.operand, 4, par) + ([Token(IS, "IS")] + (NotTokens(e.negated) + ([Token(NULL_LITERAL, "NULL")] + us)))
  {
    hide Spell, NotTokens;
  }

  lemma {:induction false} NullReads(e: Expr, par: Policy, us: Tokens)
    requires e.IsNull? && Printable(e)
    ensures ParseComparison(Bare(e, par) + us) == Done(Reloaded(e), us)
    decreases e, -1
  {
    hide Spell, Bare, ParseAdditive, ParseComparison, NullTest, NotTokens, ComparisonBody;
    var vs := NotTokens(e.negated) + ([Token(NULL_LITERAL, "NULL")] + us);
    var ws := [Token(IS, "IS")] + vs;
    SumReads(e.operand, par, ws);
    NullRest(e.negated, Reloaded(e.operand), us);
    assert ws[1..] == vs;
    NullTokens(e, par, us);
    Compared(Bare(e, par) + us, ws, Reloaded(e.operand), Reloaded(e), us);
  }

  /** A comparison keyword, or NOT in front of one, ends the operand before it. */
  lemma OperandEnds(negated: bool, us: Tokens)
    requires Head(us) == IN || Head(us) == BETWEEN || Head(us) == LIKE || (!negated && Head(us) == AND)
    ensures StopsSum(NotTokens(negated) + us)
    ensures !negated ==> NotTokens(negated) + us == us
  {
  }

  lemma BetweenTokens(e: Expr, par: Policy, us: Tokens)
    requires e.Between?
    ensures Bare(e, par) + us ==
      Spell(e.value, 4, par) + (NotTokens(e.negated) + ([Token(BETWEEN, "BETWEEN")] + (Spell(e.lo, 4, par) + ([Token(AND, "AND")] + (Spell(e.hi, 4, par) + us)))))
  {
    hide Spell, NotTokens;
  }

  lemma {:induction false} BetweenReads(e: Expr, par: Policy, us: Tokens)
    requires e.Between? && Printable(e) && StopsComparison(us)
    ensures ParseComparison(Bare(e, par) + us) == Done(Reloaded(e), us)
    decreases e, -1
  {
    hide ParseAdditive, ParseComparison, Spell, Bare, ComparisonBody, ComparisonRest, NotTokens, StopsSum;
    var b, c := Spell(e.lo, 4, par), Spell(e.hi, 4, par);
    var vs := [Token(AND, "AND")] + (c + us);
    var ws := [Token(BETWEEN, "BETWEEN")] + (b + vs);
    OperandEnds(e.negated, ws);
    OperandEnds(false, vs);
    ComparisonStopsSum(us);
    SumReads(e.value, par, NotTokens(e.negated) + ws);
    SumReads(e.lo, par, vs);
    SumReads(e.hi, par, us);
    BetweenSteps(e.negated, b, c, Reloaded(e.value), Reloaded(e.lo), Reloaded(e.hi), us);
    NegationRest(e.negated, Reloaded(e.value), Reloaded(e), ws, us);
    BetweenTokens(e, par, us);
    Compared(Bare(e, par) + us, NotTokens(e.negated) + ws, Reloaded(e.value), Reloaded(e), us);
  }

  lemma ComparisonStopsSum(us: Tokens)
    requires StopsComparison(us)
    ensures StopsSum(us)
  {
  }

  lemma LikeTokens(e: Expr, par: Policy, us: Tokens)
    requires e.Like?
    ensures Bare(e, par) + us == Spell(e.value, 4, par) + (NotTokens(e.negated) + ([Token(LIKE, "LIKE")] + (Spell(e.pattern, 4, par) + us)))
  {
    hide Spell, NotTokens;
  }

  lemma {:induction false} LikeReads(e: Expr, par: Policy, us: Tokens)
    requires e.Like? && Printable(e) && StopsComparison(us)
    ensures ParseComparison(Bare(e, par) + us) == Done(Reloaded(e), us)
    decreases e, -1
  {
    hide ParseAdditive, ParseComparison, Spell, Bare, ComparisonBody, ComparisonRest, NotTokens, StopsSum;
    var b := Spell(e.pattern, 4, par);
    var ws := [Token(LIKE, "LIKE")] + (b + us);
    OperandEnds(e.negated, ws);
    ComparisonStopsSum(us);
    SumReads(e.value, par, NotTokens(e.negated) + ws);
    SumReads(e.pattern, par, us);
    LikeSteps(e.negated, b, Reloaded(e.value), Reloaded(e.pattern), us);
    NegationRest(e.negated, Reloaded(e.value), Reloaded(e), ws, us);
    LikeTokens(e, par, us);
    Compared(Bare(e, par) + us, NotTokens(e.negated) + ws, Reloaded(e.value), Reloaded(e), us);
  }

  lemma InParts(e: Expr)
    requires e.In? && Printable(e)
    ensures Printable(e.value) && e.items != []
    ensures forall i :: 0 <= i < |e.items| ==> e.items[i].IsLiteral() && Printable(e.items[i])
    ensures Reloaded(e) == In(Reloaded(e.value), ReloadedList(e.items), e.negated)
  {
  }

  lemma InTokens(e: Expr, par: Policy, us: Tokens)
    requires e.In?
    ensures Bare(e, par) + us == Spell(e.value, 4, par) + (NotTokens(e.negated) + ([Token(IN, "IN"), LP] + (ListTokens(e.items) + ([RP] + us))))
  {
    hide Spell, NotTokens, ListTokens;
  }

  /** The list of IN, which holds literals, without parentheses of their own. */
  lemma InBody(e: Expr, us: Tokens)
    requires e.In? && Printable(e)
    ensures ComparisonBody(Reloaded(e.value), e.negated, [Token(IN, "IN"), LP] + (ListTokens(e.items) + ([RP] + us))) == Done(Reloaded(e), us)
  {
    hide ComparisonBody, ListTokens, ReloadedList, Printable, ParseItems, Reloaded;
    InParts(e);
    ItemsRead([], e.items, [RP] + us);
    assert [] + ReloadedList(e.items) == ReloadedList(e.items);
    InSteps(e.negated, ListTokens(e.items), Reloaded(e.value), ReloadedList(e.items), us);
  }

  lemma {:induction false} InReads(e: Expr, par: Policy, us: Tokens)
    requires e.In? && Printable(e)
    ensures ParseComparison(Bare(e, par) + us) == Done(Reloaded(e), us)
    decreases e, -1
  {
    hide ParseAdditive, ParseComparison, Spell, Bare, ComparisonBody, ComparisonRest, ListTokens, Printable, NotTokens, StopsSum, Reloaded;
    InParts(e);
    var ws := [Token(IN, "IN"), LP] + (ListTokens(e.items) + ([RP] + us));
    OperandEnds(e.negated, ws);
    SumReads(e.value, par, NotTokens(e.negated) + ws);
    InBody(e, us);
    NegationRest(e.negated, Reloaded(e.value), Reloaded(e), ws, us);
    InTokens(e, par, us);
    Compared(Bare(e, par) + us, NotTokens(e.negated) + ws, Reloaded(e.value), Reloaded(e), us);
  }

  lemma ItemStep(done: seq<Expr>, x: Expr, ts: Tokens, us: Tokens)
    requires ParseLiteral(ts) == Done(x, us)
    ensures Head(us) == COMMA ==> ParseItems(done, ts) == ParseItems(done + [x], us[1..])
    ensures Head(us) != COMMA ==> ParseItems(done, ts) == Done(done + [x], us)
  {
    hide ParseLiteral;
  }

  lemma Regroup(a: Tokens, b: Tokens, c: Tokens, end: Tokens)
    ensures (a + (b + c)) + end == a + (b + (c + end))
  {
  }

  lemma ListSteps(es: seq<Expr>, end: Tokens)
    requires es != []
    ensures |es| == 1 ==> ListTokens(es) + end == TokensOf(es[0]) + end
    ensures |es| > 1 ==> ListTokens(es) + end == TokensOf(es[0]) + ([Token(COMMA, ",")] + (ListTokens(es[1..]) + end))
  {
    hide TokensOf;
    if |es| > 1 {
      Regroup(TokensOf(es[0]), [Token(COMMA, ",")], ListTokens(es[1..]), end);
    }
  }

  lemma LiteralOpens(e: Expr, rest: Tokens)
    requires e.IsLiteral()
    ensures Opens(Head(TokensOf(e) + rest))
  {
    hide Digits, Fixed;
  }

  lemma {:induction false} ItemsRead(done: seq<Expr>, es: seq<Expr>, end: Tokens)
    requires es != [] && forall i :: 0 <= i < |es| ==> es[i].IsLiteral() && Printable(es[i])
    requires Head(end) != COMMA
    ensures ParseItems(done, ListTokens(es) + end) == Done(done + ReloadedList(es), end)
    ensures Opens(Head(ListTokens(es) + end))
    decreases |es|
  {
    hide ParseLiteral, ParseItems, TokensOf, ListTokens, Reloaded, ReloadedList, Printable, Opens;
    ListSteps(es, end);
    ReloadedSteps(es);
    var x := Reloaded(es[0]);
    if |es| == 1 {
      LiteralReads(es[0], end);
      LiteralOpens(es[0], end);
      ItemStep(done, x, ListTokens(es) + end, end);
    } else {
      var rest := ListTokens(es[1..]) + end;
      var us := [Token(COMMA, ",")] + rest;
      LiteralReads(es[0], us);
      LiteralOpens(es[0], us);
      ItemStep(done, x, ListTokens(es) + end, us);
      assert us[1..] == rest;
      ItemsRead(done + [x], es[1..], end);
      assert done + [x] + ReloadedList(es[1..]) == done + ReloadedList(es);
    }
  }

  lemma ArgStep(done: seq<Expr>, x: Expr, ts: Tokens, us: Tokens)
    requires ParseOr(ts) == Done(x, us)
    ensures Head(us) == COMMA ==> ParseArgs(done, ts) == ParseArgs(done + [x], us[1..])
    ensures Head(us) != COMMA ==> ParseArgs(done, ts) == Done(done + [x], us)
  {
    hide ParseOr;
  }

  lemma ReloadedSteps(es: seq<Expr>)
    requires es != []
    ensures ReloadedList(es) == [Reloaded(es[0])] + ReloadedList(es[1..])
    ensures |es| == 1 ==> ReloadedList(es) == [Reloaded(es[0])]
  {
    hide Reloaded;
  }

  lemma SpellListSteps(es: seq<Expr>, par: Policy, end: Tokens)
    requires es != []
    ensures |es| == 1 ==> SpellList(es, par) + end == Spell(es[0], 0, par) + end
    ensures |es| > 1 ==> SpellList(es, par) + end == Spell(es[0], 0, par) + ([Token(COMMA, ",")] + (SpellList(es[1..], par) + end))
  {
    hide Spell;
    if |es| > 1 {
      Regroup(Spell(es[0], 0, par), [Token(COMMA, ",")], SpellList(es[1..], par), end);
    }
  }

  lemma CommaStops(ts: Tokens)
    ensures StopsAll([Token(COMMA, ",")] + ts)
  {
  }

  lemma {:induction false} ArgsRead(done: seq<Expr>, es: seq<Expr>, par: Policy, end: Tokens)
    requires es != [] && forall i :: 0 <= i < |es| ==> Printable(es[i])
    requires StopsAll(end) && Head(end) != COMMA
    ensures ParseArgs(done, SpellList(es, par) + end) == Done(done + ReloadedList(es), end)
    ensures Head(SpellList(es, par) + end) != RPAREN
    decreases es, 0
  {
    hide ParseOr, ParseArgs, Spell, SpellList, Reloaded, ReloadedList, Printable, Opens, StopsAll, Level;
    SpellListSteps(es, par, end);
    ReloadedSteps(es);
    SpellStarts(es[0], 0, par);
    OpensNotNot(Head(Spell(es[0], 0, par)));
    var x := Reloaded(es[0]);
    if |es| == 1 {
      WholeReads(es[0], par, end);
      HeadOf(Spell(es[0], 0, par), end);
      ArgStep(done, x, SpellList(es, par) + end, end);
    } else {
      var rest := SpellList(es[1..], par) + end;
      var us := [Token(COMMA, ",")] + rest;
      CommaStops(rest);
      WholeReads(es[0], par, us);
      HeadOf(Spell(es[0], 0, par), us);
      ArgStep(done, x, SpellList(es, par) + end, us);
      assert us[1..] == rest;
      ArgsRead(done + [x], es[1..], par, end);
      assert done + [x] + ReloadedList(es[1..]) == done + ReloadedList(es);
    }
  }

  lemma {:induction false} CallReads(e: Expr, par: Policy, rest: Tokens)
    requires e.Call? && Printable(e)
    ensures ParseUnary(Bare(e, par) + rest) == Done(Reloaded(e), rest)
    decreases e, 0
  {
    hide ParseArgs, Upper, SpellList, IsName, ReloadedList, ParseUnary;
    var ts := Bare(e, par) + rest;
    var end := [RP] + rest;
    assert ts[2..] == SpellList(e.args, par) + end;
    if e.args == [] {
      NoTokens(par);
      EmptyCallSteps(ts, e.name, rest);
    } else {
      ArgsRead([], e.args, par, end);
      assert [] + ReloadedList(e.args) == ReloadedList(e.args);
      CallSteps(ts, e.name, ReloadedList(e.args), rest);
    }
  }

  lemma EmptyCallSteps(ts: Tokens, name: string, rest: Tokens)
    requires Head(ts) == IDENTIFIER && Second(ts) == LPAREN && ts[0].lexeme == name
    requires Upper(name) == name && !IsAggregateName(name) && name != "CAST" && ts[2..] == [RP] + rest
    ensures ParseUnary(ts) == Done(Call(name, []), rest)
  {
    hide Upper, IsAggregateName;
    assert ts[3..] == ts[2..][1..] == rest;
    assert ParseCall(ts) == Done(Call(name, []), rest);
    assert ParsePrimary(ts) == ParseCall(ts);
  }

  lemma CallSteps(ts: Tokens, name: string, args: seq<Expr>, rest: Tokens)
    requires Head(ts) == IDENTIFIER && Second(ts) == LPAREN && ts[0].lexeme == name
    requires Upper(name) == name && !IsAggregateName(name) && name != "CAST" && Head(ts[2..]) != RPAREN
    requires ParseArgs([], ts[2..]) == Done(args, [RP] + rest)
    ensures ParseUnary(ts) == Done(Call(name, args), rest)
  {
    hide Upper, IsAggregateName, ParseArgs;
    assert ([RP] + rest)[1..] == rest;
    assert ParseCall(ts) == Done(Call(name, args), rest);
    assert ParsePrimary(ts) == ParseCall(ts);
  }

  lemma NoTokens(par: Policy)
    ensures SpellList([], par) == [] && ReloadedList([]) == []
  {
  }

  lemma {:induction false} CastReads(e: Expr, par: Policy, rest: Tokens)
    requires e.Cast? && Printable(e)
    ensures ParseUnary(Bare(e, par) + rest) == Done(Reloaded(e), rest)
    decreases e, 0
  {
    hide ParseOr, ParseCast, ParseCastType, Spell;
    var us := [Token(AS, "AS"), TypeToken(e.target), RP] + rest;
    WholeReads(e.arg, par, us);
    CastSteps(Spell(e.arg, 0, par), Reloaded(e.arg), e.target, rest);
    CastTokens(e, par, rest);
    CastCall(Bare(e, par) + rest);
  }

  lemma CastTokens(e: Expr, par: Policy, rest: Tokens)
    requires e.Cast?
    ensures var ts := Bare(e, par) + rest;
      && Head(ts) == IDENTIFIER && Second(ts) == LPAREN && ts[0].lexeme == "CAST"
      && ts[2..] == Spell(e.arg, 0, par) + ([Token(AS, "AS"), TypeToken(e.target), RP] + rest)
  {
    hide TypeToken, Spell;
  }

  lemma CastSteps(a: Tokens, x: Expr, t: DataType, rest: Tokens)
    requires var us := [Token(AS, "AS"), TypeToken(t), RP] + rest; ParseOr(a + us) == Done(x, us)
    ensures ParseCast(a + ([Token(AS, "AS"), TypeToken(t), RP] + rest)) == Done(Cast(x, t), rest)
  {
    hide ParseOr, ParseCastType, TypeToken;
    var us := [Token(AS, "AS"), TypeToken(t), RP] + rest;
    var end := [RP] + rest;
    TypeReads(t, end);
    assert us[1..] == [TypeToken(t)] + end;
    assert end[1..] == rest;
  }

  lemma CastCall(ts: Tokens)
    requires Head(ts) == IDENTIFIER && Second(ts) == LPAREN && ts[0].lexeme == "CAST"
    ensures ParseUnary(ts) == ParseCast(ts[2..])
  {
    hide ParseCast, Upper, IsAggregateName;
    CastIsItself();
    assert ParseCall(ts) == ParseCast(ts[2..]);
    assert ParsePrimary(ts) == ParseCall(ts);
  }

  lemma CastIsItself()
    ensures Upper("CAST") == "CAST" && !IsAggregateName("CAST")
  {
    var u := Upper("CAST");
    assert u[0] == 'C' && u[1] == 'A' && u[2] == 'S' && u[3] == 'T';
  }

  lemma TypeReads(t: DataType, rest: Tokens)
    requires Head(rest) != LPAREN
    ensures ParseCastType([TypeToken(t)] + rest) == Done(t, rest)
  {
    var ts := [TypeToken(t)] + rest;
    assert ts[1..] == rest && Second(ts) == Head(rest);
  }

  lemma BranchesSteps(bs: seq<Branch>, par: Policy, end: Tokens)
    requires bs != []
    ensures SpellBranches(bs, par) + end == SpellBranch(bs[0], par) + (SpellBranches(bs[1..], par) + end)
    ensures ReloadedBranches(bs) == [ReloadedBranch(bs[0])] + ReloadedBranches(bs[1..])
  {
    hide SpellBranch, ReloadedBranch;
  }

  lemma NoBranches(done: seq<Branch>, bs: seq<Branch>, par: Policy, end: Tokens)
    requires bs == [] && Head(end) != WHERE
    ensures ParseBranches(done, SpellBranches(bs, par) + end) == Done(done + ReloadedBranches(bs), end)
  {
    assert SpellBranches(bs, par) + end == end && done + ReloadedBranches(bs) == done;
  }

  lemma {:induction false} BranchesRead(done: seq<Branch>, bs: seq<Branch>, par: Policy, end: Tokens)
    requires forall i :: 0 <= i < |bs| ==> PrintableBranch(bs[i])
    requires StopsSum(end) && Head(end) != WHERE
    ensures ParseBranches(done, SpellBranches(bs, par) + end) == Done(done + ReloadedBranches(bs), end)
    decreases bs, 1
  {
    hide ParseBranches, SpellBranch, SpellBranches, ReloadedBranch, ReloadedBranches, PrintableBranch, StopsSum;
    if bs == [] {
      NoBranches(done, bs, par, end);
    } else {
      var us := SpellBranches(bs[1..], par) + end;
      BranchesStart(bs[1..], par, end);
      BranchReads(done, bs[0], par, us);
      BranchesRead(done + [ReloadedBranch(bs[0])], bs[1..], par, end);
      BranchesSteps(bs, par, end);
      assert done + [ReloadedBranch(bs[0])] + ReloadedBranches(bs[1..]) == done + ReloadedBranches(bs);
    }
  }

  predicate PrintableBranch(b: Branch) {
    Printable(b.cond) && Printable(b.then_)
  }

  lemma BranchesStart(bs: seq<Branch>, par: Policy, end: Tokens)
    requires StopsSum(end)
    ensures StopsSum(SpellBranches(bs, par) + end)
  {
    hide Spell;
    if bs == [] {
      assert SpellBranches(bs, par) + end == end;
    } else {
      BranchesSteps(bs, par, end);
      assert Head(SpellBranches(bs, par) + end) == WHERE;
    }
  }

  lemma {:induction false} BranchReads(done: seq<Branch>, b: Branch, par: Policy, us: Tokens)
    requires PrintableBranch(b) && StopsSum(us)
    ensures ParseBranches(done, SpellBranch(b, par) + us) == ParseBranches(done + [ReloadedBranch(b)], us)
    decreases b, 0
  {
    hide ParseOr, ParseAdditive, ParseBranches, Spell, Printable, Reloaded, StopsSum;
    var c := Spell(b.then_, 4, par);
    var vs := [Token(THEN, "THEN")] + (c + us);
    ThenStops(c + us);
    WholeReads(b.cond, par, vs);
    SumReads(b.then_, par, us);
    BranchTexts(b, par, us);
    BranchSteps(done, Spell(b.cond, 0, par), Reloaded(b.cond), c + us, Reloaded(b.then_), us);
  }

  lemma ThenStops(ts: Tokens)
    ensures StopsAll([Token(THEN, "THEN")] + ts)
  {
  }

  lemma BranchTexts(b: Branch, par: Policy, us: Tokens)
    ensures SpellBranch(b, par) + us == [Token(WHERE, "WHEN")] + (Spell(b.cond, 0, par) + ([Token(THEN, "THEN")] + (Spell(b.then_, 4, par) + us)))
  {
    hide Spell;
  }

  lemma BranchSteps(done: seq<Branch>, a: Tokens, x: Expr, bs: Tokens, y: Expr, us: Tokens)
    requires var vs := [Token(THEN, "THEN")] + bs; ParseOr(a + vs) == Done(x, vs)
    requires ParseAdditive(bs) == Done(y, us)
    ensures ParseBranches(done, [Token(WHERE, "WHEN")] + (a + ([Token(THEN, "THEN")] + bs))) == ParseBranches(done + [Branch(x, y)], us)
  {
    hide ParseOr, ParseAdditive;
    var vs := [Token(THEN, "THEN")] + bs;
    var ts := [Token(WHERE, "WHEN")] + (a + vs);
    assert ts[1..] == a + vs;
    assert vs[1..] == bs;
  }

  lemma {:induction false} ElseReads(branches: seq<Branch>, orElse: Option<Expr>, par: Policy, rest: Tokens)
    requires orElse.Some? ==> Printable(orElse.value)
    ensures CaseEnd(branches, SpellElse(orElse, par) + ([Token(END, "END")] + rest)) == Done(Case(branches, ReloadedElse(orElse)), rest)
    decreases orElse, 0
  {
    hide ParseAdditive, Spell, Printable, StopsSum, Reloaded;
    var end := [Token(END, "END")] + rest;
    EndStops(rest);
    assert end[1..] == rest;
    match orElse
    case None => assert SpellElse(orElse, par) + end == end;
    case Some(x) =>
      SumReads(x, par, end);
      assert (SpellElse(orElse, par) + end)[1..] == Spell(x, 4, par) + end;
  }

  lemma EndStops(rest: Tokens)
    ensures StopsSum([Token(END, "END")] + rest)
  {
  }

  lemma {:induction false} CaseReads(e: Expr, par: Policy, rest: Tokens)
    requires e.Case? && Printable(e)
    ensures ParseUnary(Bare(e, par) + rest) == Done(Reloaded(e), rest)
    decreases e, 0
  {
    hide ParseBranches, CaseEnd, SpellBranches, SpellElse, ReloadedBranches, ReloadedElse, Printable, ParseUnary, StopsSum;
    var ts := Bare(e, par) + rest;
    var us := SpellElse(e.orElse, par) + ([Token(END, "END")] + rest);
    CaseParts(e);
    ElseStart(e.orElse, par, [Token(END, "END")] + rest);
    BranchesRead([], e.branches, par, us);
    ElseReads(ReloadedBranches(e.branches), e.orElse, par, rest);
    assert [] + ReloadedBranches(e.branches) == ReloadedBranches(e.branches);
    assert ts[1..] == SpellBranches(e.branches, par) + us;
    CaseSteps(ts, ReloadedBranches(e.branches), us, Reloaded(e), rest);
  }

  lemma CaseSteps(ts: Tokens, branches: seq<Branch>, us: Tokens, e: Expr, rest: Tokens)
    requires Head(ts) == CASE && ParseBranches([], ts[1..]) == Done(branches, us) && branches != []
    requires CaseEnd(branches, us) == Done(e, rest)
    ensures ParseUnary(ts) == Done(e, rest)
  {
    hide ParseBranches, CaseEnd;
    assert ParseCase(ts) == Done(e, rest);
    assert ParsePrimary(ts) == ParseCase(ts);
  }

  lemma CaseParts(e: Expr)
    requires e.Case? && Printable(e)
    ensures forall i :: 0 <= i < |e.branches| ==> PrintableBranch(e.branches[i])
    ensures e.orElse.Some? ==> Printable(e.orElse.value)
    ensures ReloadedBranches(e.branches) != []
  {
    assert forall i :: 0 <= i < |e.branches| ==>
      GrammaticalBranch(e.branches[i]) && NoAggregatesIn(e.branches[i]);
    BranchesKept(e.branches);
  }

  lemma ElseStart(orElse: Option<Expr>, par: Policy, end: Tokens)
    requires Head(end) == END
    ensures StopsSum(SpellElse(orElse, par) + end) && Head(SpellElse(orElse, par) + end) != WHERE
  {
    hide Spell;
    if orElse.None? {
      assert SpellElse(orElse, par) + end == end;
    }
  }

  lemma BranchesKept(bs: seq<Branch>)
    ensures |ReloadedBranches(bs)| == |bs|
  {
  }

  // ----- What follows

  /** The printer's tokens are read back as the expression, to the end of a whole expression. */
  lemma OrReads(e: Expr, rest: Tokens)
    requires Printable(e) && StopsAll(rest)
    ensures ParseOr(TokensOf(e) + rest) == Done(Reloaded(e), rest)
  {
    hide ParseOr, TokensOf, Spell, Printable;
    PrintedIsGenerous(e, 0);
    WholeReads(e, Generous(), rest);
  }

  /** Every spelling is read back to the end of the text, with or without a semicolon. */
  lemma SpellingReads(e: Expr, par: Policy)
    requires Printable(e)
    ensures ParseWhole(Spell(e, 0, par) + [END_TOKEN]) == Some(Reloaded(e))
    ensures ParseWhole(Spell(e, 0, par) + [Token(SEMICOLON, ";"), END_TOKEN]) == Some(Reloaded(e))
  {
    hide ParseOr, Spell, Printable, Reloaded;
    WholeReads(e, par, [END_TOKEN]);
    WholeReads(e, par, [Token(SEMICOLON, ";"), END_TOKEN]);
  }

  /** In particular the one with no more parentheses than needed. */
  lemma SparingReads(e: Expr)
    requires Printable(e)
    ensures ParseWhole(Spell(e, 0, Sparing()) + [END_TOKEN]) == Some(Reloaded(e))
  {
    hide ParseWhole, Spell, Printable, Reloaded;
    SpellingReads(e, Sparing());
  }

  /** No spelling has two meanings. */
  lemma SpellingsDiffer(e: Expr, f: Expr, par: Policy, par': Policy)
    requires Printable(e) && Printable(f) && Spell(e, 0, par) == Spell(f, 0, par')
    ensures Reloaded(e) == Reloaded(f)
  {
    hide ParseOr, Spell, Printable, Reloaded;
    var end := [RP];
    ClosingStops([]);
    assert [RP] + [] == end;
    WholeReads(e, par, end);
    WholeReads(f, par', end);
  }
}
