/** How unparenthesised text groups: which operators bind tighter, and which chains lean left. */
module SqlPrecedence {
  import opened Values
  import opened SqlAst
  import opened SqlLexer
  import opened SqlParser
  import opened SqlTokens
  import opened SqlSpelling
  import opened SqlReading
  import Evaluator

  const AND_SIGN := Token(AND, "AND")
  const NOT_SIGN := Token(NOT, "NOT")

  /** An expression that is no operator itself needs no parentheses. */
  predicate Atomic(e: Expr) {
    Printable(e) && Level(e) == 6
  }

  function Atom(e: Expr): Tokens {
    Bare(e, Sparing())
  }

  /** The tokens of a binary operator between two operands. */
  function Infix(a: Tokens, op: Token, b: Tokens): Tokens {
    a + ([op] + b)
  }

  function ReadAll(ts: Tokens): Option<Expr> {
    ParseWhole(ts + [END_TOKEN])
  }

  predicate IsProduct(op: ArithmeticOp) {
    op == Mul || op == Div
  }

  lemma LogicLevels(l: Expr, r: Expr)
    ensures Level(Logical(Or, l, r)) == 0 && Level(Logical(And, l, r)) == 1
  {
  }

  lemma ArithLevel(op: ArithmeticOp, l: Expr, r: Expr)
    ensures Level(Arith(op, l, r)) == if IsProduct(op) then 5 else 4
  {
  }

  lemma LogicSpelled(op: LogicalOp, l: Expr, r: Expr, k: nat)
    requires k <= Level(Logical(op, l, r))
    ensures var e := Logical(op, l, r);
      Spell(e, k, Sparing()) == Infix(Spell(l, Level(e), Sparing()), LogicalToken(op), Spell(r, Level(e) + 1, Sparing()))
  {
    hide Level;
  }

  lemma ArithSpelled(op: ArithmeticOp, l: Expr, r: Expr, k: nat)
    requires k <= Level(Arith(op, l, r))
    ensures var e := Arith(op, l, r);
      Spell(e, k, Sparing()) == Infix(Spell(l, Level(e), Sparing()), ArithmeticToken(op), Spell(r, Level(e) + 1, Sparing()))
  {
    hide Level;
  }

  lemma AtomSpelled(e: Expr)
    requires Atomic(e)
    ensures forall k: nat :: k <= 6 ==> Spell(e, k, Sparing()) == Atom(e)
  {
    hide Bare, Printable, Level;
  }

  lemma InfixRight(a: Tokens, op: Token, b: Tokens, op': Token, c: Tokens)
    ensures Infix(Infix(a, op, b), op', c) == Infix(a, op, Infix(b, op', c))
  {
  }

  lemma LogicParts(op: LogicalOp, l: Expr, r: Expr)
    requires Printable(l) && Printable(r)
    ensures Printable(Logical(op, l, r)) && Reloaded(Logical(op, l, r)) == Logical(op, Reloaded(l), Reloaded(r))
  {
  }

  lemma ArithParts(op: ArithmeticOp, l: Expr, r: Expr)
    requires Printable(l) && Printable(r)
    ensures Printable(Arith(op, l, r)) && Reloaded(Arith(op, l, r)) == Arith(op, Reloaded(l), Reloaded(r))
  {
  }

  lemma CompareParts(op: ComparisonOp, l: Expr, r: Expr)
    requires Printable(l) && Printable(r)
    ensures Printable(Compare(op, l, r)) && Reloaded(Compare(op, l, r)) == Compare(op, Reloaded(l), Reloaded(r))
  {
  }

  lemma NotParts(x: Expr)
    requires Printable(x)
    ensures Printable(Not(x)) && Reloaded(Not(x)) == Not(Reloaded(x))
  {
  }

  /** Without parentheses, AND groups before OR, and everything else from the left. */
  lemma LogicGroups(a: Expr, o: LogicalOp, b: Expr, o': LogicalOp, c: Expr)
    requires Atomic(a) && Atomic(b) && Atomic(c)
    ensures var x, y, z, p, q, r := Atom(a), Atom(b), Atom(c), Reloaded(a), Reloaded(b), Reloaded(c);
      ReadAll(Infix(x, LogicalToken(o), Infix(y, LogicalToken(o'), z)))
        == Some(if o == Or && o' == And then Logical(o, p, Logical(o', q, r)) else Logical(o', Logical(o, p, q), r))
  {
    hide Spell, Bare, Level, ParseWhole, Infix, LogicalToken, Atom, Printable, Reloaded;
    AtomSpelled(a);
    AtomSpelled(b);
    AtomSpelled(c);
    if o == Or && o' == And {
      var e := Logical(o, a, Logical(o', b, c));
      LogicLevels(b, c);
      LogicLevels(a, Logical(o', b, c));
      LogicParts(o', b, c);
      LogicParts(o, a, Logical(o', b, c));
      LogicSpelled(o', b, c, 1);
      LogicSpelled(o, a, Logical(o', b, c), 0);
      SparingReads(e);
    } else {
      var e := Logical(o', Logical(o, a, b), c);
      LogicLevels(a, b);
      LogicLevels(Logical(o, a, b), c);
      LogicParts(o, a, b);
      LogicParts(o', Logical(o, a, b), c);
      LogicSpelled(o, a, b, Level(e));
      LogicSpelled(o', Logical(o, a, b), c, 0);
      InfixRight(Atom(a), LogicalToken(o), Atom(b), LogicalToken(o'), Atom(c));
      SparingReads(e);
    }
  }

  /** Products group before sums. */
  lemma ProductsFirst(a: Expr, o: ArithmeticOp, b: Expr, o': ArithmeticOp, c: Expr)
    requires Atomic(a) && Atomic(b) && Atomic(c) && !IsProduct(o) && IsProduct(o')
    ensures ReadAll(Infix(Atom(a), ArithmeticToken(o), Infix(Atom(b), ArithmeticToken(o'), Atom(c))))
      == Some(Arith(o, Reloaded(a), Arith(o', Reloaded(b), Reloaded(c))))
  {
    hide Spell, Bare, Level, IsProduct, ParseWhole, Infix, ArithmeticToken, Atom, Printable, Reloaded;
    AtomSpelled(a);
    AtomSpelled(b);
    AtomSpelled(c);
    ArithLevel(o', b, c);
    ArithLevel(o, a, Arith(o', b, c));
    ArithParts(o', b, c);
    ArithParts(o, a, Arith(o', b, c));
    ArithSpelled(o', b, c, 5);
    ArithSpelled(o, a, Arith(o', b, c), 0);
    SparingReads(Arith(o, a, Arith(o', b, c)));
  }

  /** All other chains of sums and products group from the left: a - b - c is (a - b) - c. */
  lemma FromTheLeft(a: Expr, o: ArithmeticOp, b: Expr, o': ArithmeticOp, c: Expr)
    requires Atomic(a) && Atomic(b) && Atomic(c) && (IsProduct(o) || !IsProduct(o'))
    ensures ReadAll(Infix(Atom(a), ArithmeticToken(o), Infix(Atom(b), ArithmeticToken(o'), Atom(c))))
      == Some(Arith(o', Arith(o, Reloaded(a), Reloaded(b)), Reloaded(c)))
  {
    hide Spell, Bare, Level, IsProduct, ParseWhole, Infix, ArithmeticToken, Atom, Printable, Reloaded;
    AtomSpelled(a);
    AtomSpelled(b);
    AtomSpelled(c);
    var e := Arith(o', Arith(o, a, b), c);
    ArithLevel(o, a, b);
    ArithLevel(o', Arith(o, a, b), c);
    ArithParts(o, a, b);
    ArithParts(o', Arith(o, a, b), c);
    ArithSpelled(o, a, b, Level(e));
    ArithSpelled(o', Arith(o, a, b), c, 0);
    InfixRight(Atom(a), ArithmeticToken(o), Atom(b), ArithmeticToken(o'), Atom(c));
    SparingReads(e);
  }

  /** NOT leaves AND alone and takes a comparison. */
  lemma NotGroups(a: Expr, op: ComparisonOp, b: Expr)
    requires Atomic(a) && Atomic(b)
    ensures var p, q := Reloaded(a), Reloaded(b);
      && ReadAll([NOT_SIGN] + Infix(Atom(a), AND_SIGN, Atom(b))) == Some(Logical(And, Not(p), q))
      && ReadAll([NOT_SIGN] + Infix(Atom(a), ComparisonToken(op), Atom(b))) == Some(Not(Compare(op, p, q)))
  {
    hide Spell, ParseWhole, ComparisonToken, Atom, Bare, Printable, Reloaded;
    AtomSpelled(a);
    AtomSpelled(b);
    NotParts(a);
    LogicParts(And, Not(a), b);
    LogicSpelled(And, Not(a), b, 0);
    NotSpelled(a, 1);
    SparingReads(Logical(And, Not(a), b));
    NotFirst(Atom(a), Atom(b));
    CompareParts(op, a, b);
    NotParts(Compare(op, a, b));
    CompareSpelled(op, a, b, 2);
    NotSpelled(Compare(op, a, b), 0);
    SparingReads(Not(Compare(op, a, b)));
  }

  lemma NotFirst(a: Tokens, b: Tokens)
    ensures [NOT_SIGN] + Infix(a, AND_SIGN, b) == Infix([NOT_SIGN] + a, AND_SIGN, b)
  {
  }

  /** A comparison takes the sums and products on both of its sides. */
  lemma ComparisonGroups(a: Expr, op: ComparisonOp, b: Expr, o: ArithmeticOp, c: Expr)
    requires Atomic(a) && Atomic(b) && Atomic(c)
    ensures var p, q, r := Reloaded(a), Reloaded(b), Reloaded(c);
      && ReadAll(Infix(Atom(a), ComparisonToken(op), Infix(Atom(b), ArithmeticToken(o), Atom(c)))) == Some(Compare(op, p, Arith(o, q, r)))
      && ReadAll(Infix(Infix(Atom(a), ArithmeticToken(o), Atom(b)), ComparisonToken(op), Atom(c))) == Some(Compare(op, Arith(o, p, q), r))
  {
    hide Spell, ParseWhole, ArithmeticToken, ComparisonToken, Atom, Bare, Printable, Reloaded, Infix;
    AtomSpelled(a);
    AtomSpelled(b);
    AtomSpelled(c);
    ArithParts(o, b, c);
    CompareParts(op, a, Arith(o, b, c));
    ArithSpelled(o, b, c, 4);
    CompareSpelled(op, a, Arith(o, b, c), 0);
    SparingReads(Compare(op, a, Arith(o, b, c)));
    ArithParts(o, a, b);
    CompareParts(op, Arith(o, a, b), c);
    ArithSpelled(o, a, b, 4);
    CompareSpelled(op, Arith(o, a, b), c, 0);
    SparingReads(Compare(op, Arith(o, a, b), c));
  }

  lemma NotSpelled(x: Expr, k: nat)
    requires k <= 2
    ensures Spell(Not(x), k, Sparing()) == [NOT_SIGN] + Spell(x, 2, Sparing())
  {
  }

  lemma CompareSpelled(op: ComparisonOp, l: Expr, r: Expr, k: nat)
    requires k <= 3
    ensures Spell(Compare(op, l, r), k, Sparing()) == Infix(Spell(l, 4, Sparing()), ComparisonToken(op), Spell(r, 4, Sparing()))
  {
  }


  // ----- Signs and aggregates

  /** A minus sign negates what follows, number or not; a plus sign does nothing. */
  lemma SignsRead(a: Expr, row: Row, fns: Evaluator.Functions)
    requires Atomic(a)
    ensures var n := ReadAll([MINUS_SIGN] + Atom(a)); var v := Evaluator.Eval(Reloaded(a), row, fns);
      && n.Some?
      && Evaluator.Eval(n.value, row, fns) == (match v case Int(i) => Int(-i) case Double(d) => Double(-d) case _ => Null)
    ensures ReadAll([Token(PLUS, "+")] + Atom(a)) == Some(Reloaded(a))
  {
    hide Bare, Printable, Reloaded, Evaluator.Eval, ParseUnary, Level;
    var end := [END_TOKEN];
    AtomSpelled(a);
    SpellReads(a, 6, Sparing(), end);
    assert ParseUnary(Atom(a) + end) == Done(Reloaded(a), end);
    MinusSteps(Atom(a) + end, Reloaded(a));
    PlusSteps(Atom(a) + end, Reloaded(a));
    assert [MINUS_SIGN] + Atom(a) + end == [MINUS_SIGN] + (Atom(a) + end);
    assert [Token(PLUS, "+")] + Atom(a) + end == [Token(PLUS, "+")] + (Atom(a) + end);
    NegateMeans(Reloaded(a), row, fns);
  }

  lemma MinusSteps(ts: Tokens, x: Expr)
    requires ParseUnary(ts) == Done(x, [END_TOKEN])
    ensures ParseWhole([MINUS_SIGN] + ts) == Some(Negate(x))
  {
    var us := [MINUS_SIGN] + ts;
    assert us[1..] == ts;
    assert ParseUnary(us) == Done(Negate(x), [END_TOKEN]);
    hide ParseUnary, Negate;
    UnaryIsWhole(us, Negate(x));
  }

  lemma PlusSteps(ts: Tokens, x: Expr)
    requires ParseUnary(ts) == Done(x, [END_TOKEN])
    ensures ParseWhole([Token(PLUS, "+")] + ts) == Some(x)
  {
    var us := [Token(PLUS, "+")] + ts;
    assert us[1..] == ts;
    assert ParseUnary(us) == Done(x, [END_TOKEN]);
    hide ParseUnary;
    UnaryIsWhole(us, x);
  }

  lemma UnaryIsWhole(ts: Tokens, x: Expr)
    requires ParseUnary(ts) == Done(x, [END_TOKEN]) && Head(ts) != NOT
    ensures ParseWhole(ts) == Some(x)
  {
    hide ParseUnary, ParseOr, ParseAt, RestAt, Stops, StopsAll;
    var end := [END_TOKEN];
    AtSix(ts, x, end);
    EndStopsAll();
    Lift(ts, x, end, 6, 0);
    AtEnds(ts, x, end);
  }

  lemma EndStopsAll()
    ensures StopsAll([END_TOKEN]) && forall k: nat :: Stops(k, [END_TOKEN])
  {
  }

  lemma NegateMeans(x: Expr, row: Row, fns: Evaluator.Functions)
    ensures Evaluator.Eval(Negate(x), row, fns) ==
      match Evaluator.Eval(x, row, fns) case Int(i) => Int(-i) case Double(d) => Double(-d) case _ => Null
  {
    match x
    case IntLit(_) =>
    case FloatLit(_) =>
    case _ =>
      hide Evaluator.Arithmetic;
      assert Evaluator.Eval(Negate(x), row, fns) == Evaluator.Arithmetic(Sub, Int(0), Evaluator.Eval(x, row, fns));
      ZeroMinus(Evaluator.Eval(x, row, fns));
  }

  lemma ZeroMinus(v: Value)
    ensures Evaluator.Arithmetic(Sub, Int(0), v) == match v case Int(i) => Int(-i) case Double(d) => Double(-d) case _ => Null
  {
  }

  function Mark(distinct: bool): Tokens {
    if distinct then [Token(DISTINCT, "UNIQUEONLY")] else []
  }

  /** Calls of COUNT, SUM, AVG, MIN and MAX, in either case, of a column, of distinct values or of
      all rows. */
  lemma AggregatesRead(name: string, distinct: bool, column: string)
    requires IsAggregateName(name)
    ensures var start := [Token(IDENTIFIER, name), LP] + Mark(distinct);
      && ReadAll(start + [Token(IDENTIFIER, column), RP]) == Some(Aggregate(Upper(name), false, distinct, "", column))
      && ReadAll(start + [Token(STAR, "*"), RP]) == Some(Aggregate(Upper(name), true, distinct, "", ""))
  {
    hide IsAggregateName, Upper, ReadAll, Mark, AggregateBody;
    ColumnArgument(Upper(name), distinct, column);
    StarArgument(Upper(name), distinct);
    AggregateSteps(name, distinct, [Token(IDENTIFIER, column), RP], Aggregate(Upper(name), false, distinct, "", column));
    AggregateSteps(name, distinct, [Token(STAR, "*"), RP], Aggregate(Upper(name), true, distinct, "", ""));
  }

  lemma ColumnArgument(name: string, distinct: bool, column: string)
    ensures AggregateBody(name, distinct, [Token(IDENTIFIER, column), RP] + [END_TOKEN]) == Done(Aggregate(name, false, distinct, "", column), [END_TOKEN])
  {
    var ts := [Token(IDENTIFIER, column), RP] + [END_TOKEN];
    assert ts[1..] == [RP, END_TOKEN] && ts[1..][1..] == [END_TOKEN];
    assert ParseColumn(ts) == Done(Column("", column, -1), ts[1..]);
  }

  lemma StarArgument(name: string, distinct: bool)
    ensures AggregateBody(name, distinct, [Token(STAR, "*"), RP] + [END_TOKEN]) == Done(Aggregate(name, true, distinct, "", ""), [END_TOKEN])
  {
    var ts := [Token(STAR, "*"), RP] + [END_TOKEN];
    assert ts[2..] == [END_TOKEN];
  }

  lemma AggregateSteps(name: string, distinct: bool, arg: Tokens, e: Expr)
    requires IsAggregateName(name) && arg != [] && Head(arg) != DISTINCT
    requires AggregateBody(Upper(name), distinct, arg + [END_TOKEN]) == Done(e, [END_TOKEN])
    ensures ReadAll([Token(IDENTIFIER, name), LP] + Mark(distinct) + arg) == Some(e)
  {
    hide IsAggregateName, Upper, AggregateBody, ParseUnary, ParseOr, ParseAt, RestAt, ParseAggregate;
    var end := [END_TOKEN];
    var ts := [Token(IDENTIFIER, name), LP] + Mark(distinct) + arg + end;
    AggregateStart(ts, name, distinct, arg + end);
    AggregateIsUnary(ts);
    UnaryIsWhole(ts, e);
  }

  lemma AggregateStart(ts: Tokens, name: string, distinct: bool, us: Tokens)
    requires ts == [Token(IDENTIFIER, name), LP] + Mark(distinct) + us && Head(us) != DISTINCT
    ensures Head(ts) == IDENTIFIER && Second(ts) == LPAREN && ts[0].lexeme == name
    ensures ParseAggregate(ts) == AggregateBody(Upper(name), distinct, us)
  {
    hide AggregateBody, Upper;
    assert ts[2..] == Mark(distinct) + us;
    if distinct {
      assert ts[3..] == us;
    } else {
      assert ts[2..] == us;
    }
  }

  lemma AggregateIsUnary(ts: Tokens)
    requires Head(ts) == IDENTIFIER && Second(ts) == LPAREN && IsAggregateName(ts[0].lexeme)
    ensures ParseUnary(ts) == ParseAggregate(ts)
  {
    hide IsAggregateName, ParseAggregate;
    assert ParsePrimary(ts) == ParseAggregate(ts);
  }
}
