/** The expression parser: recursive descent as functions on the remaining tokens, and
    the parser object that runs it with a cursor. A failure stands for the ParseError
    exception; a subquery, which needs the statement parser, is a failure here. */
module SqlParser {
  import opened Values
  import opened SqlAst
  import opened SqlLexer

  type Tokens = seq<Token>

  /** What a parse function read and the tokens after it. */
  datatype Parsed<T> = Done(value: T, rest: Tokens) | Failed

  function Head(ts: Tokens): TokenType {
    if ts == [] then END_OF_FILE else ts[0].kind
  }

  function Second(ts: Tokens): TokenType {
    if |ts| < 2 then END_OF_FILE else ts[1].kind
  }

  // ----- Tokens to operators and literals

  function ToComparison(k: TokenType): Option<ComparisonOp> {
    match k
    case EQ => Some(Eq)
    case NEQ => Some(Neq)
    case LT => Some(Lt)
    case LEQ => Some(Leq)
    case GT => Some(Gt)
    case GEQ => Some(Geq)
    case _ => None
  }

  function ToAdditive(k: TokenType): Option<ArithmeticOp> {
    match k
    case PLUS => Some(Add)
    case MINUS => Some(Sub)
    case _ => None
  }

  function ToMultiplicative(k: TokenType): Option<ArithmeticOp> {
    match k
    case STAR => Some(Mul)
    case SLASH => Some(Div)
    case _ => None
  }

  function ToDataType(k: TokenType): Option<DataType> {
    match k
    case INT_TYPE => Some(IntType)
    case FLOAT_TYPE => Some(FloatType)
    case BOOL_TYPE => Some(BoolType)
    case TEXT_TYPE => Some(TextType)
    case DATE_TYPE => Some(DateType)
    case TIMESTAMP_TYPE => Some(TimestampType)
    case VARCHAR => Some(VarcharType)
    case _ => None
  }

  predicate IsLiteralToken(k: TokenType) {
    k == INTEGER_LITERAL || k == FLOAT_LITERAL || k == STRING_LITERAL || k == TRUE || k == FALSE || k == NULL_LITERAL
  }

  predicate IsAggregateName(name: string) {
    var u := Upper(name);
    u == "COUNT" || u == "SUM" || u == "AVG" || u == "MIN" || u == "MAX"
  }

  function DigitsValue(s: string): int {
    if s == "" then 0 else DigitsValue(s[..|s| - 1]) * 10 + (s[|s| - 1] as int - '0' as int)
  }

  function Power10(n: nat): (p: nat)
    ensures p > 0
  {
    if n == 0 then 1 else 10 * Power10(n - 1)
  }

  /** The number a decimal literal stands for. */
  function DecimalValue(s: string): real {
    var whole := DigitLength(s);
    if whole == |s| then DigitsValue(s) as real
    else DigitsValue(s[..whole] + s[whole + 1..]) as real / Power10(|s| - whole - 1) as real
  }

  /** A literal token's value; none when an integer exceeds 64 bits. */
  function MakeLiteral(t: Token): Option<Expr> {
    match t.kind
    case INTEGER_LITERAL => if DigitsValue(t.lexeme) <= INT64_MAX then Some(IntLit(DigitsValue(t.lexeme))) else None
    case FLOAT_LITERAL => Some(FloatLit(DecimalValue(t.lexeme)))
    case STRING_LITERAL => Some(StringLit(t.lexeme))
    case TRUE => Some(BoolLit(true))
    case FALSE => Some(BoolLit(false))
    case NULL_LITERAL => Some(NullLit)
    case _ => None
  }

  function Negate(e: Expr): Expr {
    match e
    case IntLit(i) => IntLit(-i)
    case FloatLit(d) => FloatLit(-d)
    case _ => Arith(Sub, IntLit(0), e)
  }

  // ----- The grammar

  function ParseWhole(ts: Tokens): Option<Expr> {
    match ParseOr(ts)
    case Failed => None
    case Done(e, rest) =>
      var end := if Head(rest) == SEMICOLON then rest[1..] else rest;
      if Head(end) == END_OF_FILE then Some(e) else None
  }

  function ParseOr(ts: Tokens): (p: Parsed<Expr>)
    ensures p.Done? ==> |p.rest| < |ts|
    decreases |ts|, 10
  {
    match ParseAnd(ts)
    case Failed => Failed
    case Done(e, rest) => OrRest(e, rest)
  }

  function OrRest(left: Expr, ts: Tokens): (p: Parsed<Expr>)
    ensures p.Done? ==> |p.rest| <= |ts|
    decreases |ts|, 9
  {
    if Head(ts) != OR then Done(left, ts)
    else
      match ParseAnd(ts[1..])
      case Failed => Failed
      case Done(right, rest) => OrRest(Logical(Or, left, right), rest)
  }

  function ParseAnd(ts: Tokens): (p: Parsed<Expr>)
    ensures p.Done? ==> |p.rest| < |ts|
    decreases |ts|, 8
  {
    match ParseNot(ts)
    case Failed => Failed
    case Done(e, rest) => AndRest(e, rest)
  }

  function AndRest(left: Expr, ts: Tokens): (p: Parsed<Expr>)
    ensures p.Done? ==> |p.rest| <= |ts|
    decreases |ts|, 8
  {
    if Head(ts) != AND then Done(left, ts)
    else
      match ParseNot(ts[1..])
      case Failed => Failed
      case Done(right, rest) => AndRest(Logical(And, left, right), rest)
  }

  function ParseNot(ts: Tokens): (p: Parsed<Expr>)
    ensures p.Done? ==> |p.rest| < |ts|
    decreases |ts|, 7
  {
    if Head(ts) == NOT then
      match ParseNot(ts[1..])
      case Failed => Failed
      case Done(e, rest) => Done(Not(e), rest)
    else ParseComparison(ts)
  }

  function ParseComparison(ts: Tokens): (p: Parsed<Expr>)
    ensures p.Done? ==> |p.rest| < |ts|
    decreases |ts|, 6
  {
    match ParseAdditive(ts)
    case Failed => Failed
    case Done(left, rest) => ComparisonRest(left, rest)
  }

  /** NOT counts as part of the comparison only in front of IN, BETWEEN and LIKE. */
  predicate NegatedComparison(ts: Tokens) {
    Head(ts) == NOT && (Second(ts) == IN || Second(ts) == BETWEEN || Second(ts) == LIKE)
  }

  function ComparisonRest(left: Expr, ts: Tokens): (p: Parsed<Expr>)
    ensures p.Done? ==> |p.rest| <= |ts|
    decreases |ts|, 6
  {
    if Head(ts) == IS then NullTest(left, ts[1..])
    else if NegatedComparison(ts) then ComparisonBody(left, true, ts[1..])
    else ComparisonBody(left, false, ts)
  }

  function ComparisonBody(left: Expr, negated: bool, ts: Tokens): (p: Parsed<Expr>)
    ensures p.Done? ==> |p.rest| <= |ts|
    decreases |ts|, 5
  {
    if Head(ts) == IN then InTest(left, negated, ts[1..])
    else if Head(ts) == BETWEEN then BetweenTest(left, negated, ts[1..])
    else if Head(ts) == LIKE then LikeTest(left, negated, ts[1..])
    else if ToComparison(Head(ts)).Some? then
      match ParseAdditive(ts[1..])
      case Failed => Failed
      case Done(right, rest) => Done(Compare(ToComparison(Head(ts)).value, left, right), rest)
    else Done(left, ts)
  }

  lemma ComparisonIsToken(k: TokenType)
    requires ToComparison(k).Some?
    ensures k != END_OF_FILE
  {
  }

  function NullTest(left: Expr, ts: Tokens): (p: Parsed<Expr>)
    ensures p.Done? ==> |p.rest| < |ts|
  {
    var negated := Head(ts) == NOT;
    var us := if negated then ts[1..] else ts;
    if Head(us) == NULL_LITERAL then Done(IsNull(left, negated), us[1..]) else Failed
  }

  function InTest(left: Expr, negated: bool, ts: Tokens): (p: Parsed<Expr>)
    ensures p.Done? ==> |p.rest| < |ts|
  {
    if Head(ts) != LPAREN || Second(ts) == SELECT then Failed
    else
      match ParseItems([], ts[1..])
      case Failed => Failed
      case Done(items, rest) => if Head(rest) == RPAREN then Done(In(left, items, negated), rest[1..]) else Failed
  }

  /** One literal or more, separated by commas. */
  function ParseItems(items: seq<Expr>, ts: Tokens): (p: Parsed<seq<Expr>>)
    ensures p.Done? ==> |p.rest| < |ts|
    decreases |ts|
  {
    match ParseLiteral(ts)
    case Failed => Failed
    case Done(item, rest) =>
      if Head(rest) == COMMA then ParseItems(items + [item], rest[1..]) else Done(items + [item], rest)
  }

  predicate Signed(ts: Tokens) {
    (Head(ts) == MINUS || Head(ts) == PLUS) && (Second(ts) == INTEGER_LITERAL || Second(ts) == FLOAT_LITERAL)
  }

  function ParseLiteral(ts: Tokens): (p: Parsed<Expr>)
    ensures p.Done? ==> |p.rest| < |ts|
  {
    if !Signed(ts) then UnsignedLiteral(ts)
    else
      match UnsignedLiteral(ts[1..])
      case Failed => Failed
      case Done(e, rest) => Done(if Head(ts) == MINUS then Negate(e) else e, rest)
  }

  function UnsignedLiteral(ts: Tokens): (p: Parsed<Expr>)
    ensures p.Done? ==> |p.rest| < |ts|
  {
    if IsLiteralToken(Head(ts)) && MakeLiteral(ts[0]).Some? then Done(MakeLiteral(ts[0]).value, ts[1..]) else Failed
  }

  function BetweenTest(left: Expr, negated: bool, ts: Tokens): (p: Parsed<Expr>)
    ensures p.Done? ==> |p.rest| < |ts|
    decreases |ts|, 6
  {
    match ParseAdditive(ts)
    case Failed => Failed
    case Done(lo, rest) =>
      if Head(rest) != AND then Failed
      else
        match ParseAdditive(rest[1..])
        case Failed => Failed
        case Done(hi, end) => Done(Between(left, lo, hi, negated), end)
  }

  function LikeTest(left: Expr, negated: bool, ts: Tokens): (p: Parsed<Expr>)
    ensures p.Done? ==> |p.rest| < |ts|
    decreases |ts|, 6
  {
    match ParseAdditive(ts)
    case Failed => Failed
    case Done(pattern, rest) => Done(Like(left, pattern, negated), rest)
  }

  function ParseAdditive(ts: Tokens): (p: Parsed<Expr>)
    ensures p.Done? ==> |p.rest| < |ts|
    decreases |ts|, 5
  {
    match ParseMultiplicative(ts)
    case Failed => Failed
    case Done(e, rest) => AdditiveRest(e, rest)
  }

  function AdditiveRest(left: Expr, ts: Tokens): (p: Parsed<Expr>)
    ensures p.Done? ==> |p.rest| <= |ts|
    decreases |ts|, 5
  {
    if ToAdditive(Head(ts)).None? then Done(left, ts)
    else
      match ParseMultiplicative(ts[1..])
      case Failed => Failed
      case Done(right, rest) => AdditiveRest(Arith(ToAdditive(Head(ts)).value, left, right), rest)
  }

  function ParseMultiplicative(ts: Tokens): (p: Parsed<Expr>)
    ensures p.Done? ==> |p.rest| < |ts|
    decreases |ts|, 4
  {
    match ParseUnary(ts)
    case Failed => Failed
    case Done(e, rest) => MultiplicativeRest(e, rest)
  }

  function MultiplicativeRest(left: Expr, ts: Tokens): (p: Parsed<Expr>)
    ensures p.Done? ==> |p.rest| <= |ts|
    decreases |ts|, 4
  {
    if ToMultiplicative(Head(ts)).None? then Done(left, ts)
    else
      match ParseUnary(ts[1..])
      case Failed => Failed
      case Done(right, rest) => MultiplicativeRest(Arith(ToMultiplicative(Head(ts)).value, left, right), rest)
  }

  function ParseUnary(ts: Tokens): (p: Parsed<Expr>)
    ensures p.Done? ==> |p.rest| < |ts|
    decreases |ts|, 3
  {
    if Head(ts) == MINUS then
      match ParseUnary(ts[1..])
      case Failed => Failed
      case Done(e, rest) => Done(Negate(e), rest)
    else if Head(ts) == PLUS then ParseUnary(ts[1..])
    else ParsePrimary(ts)
  }

  function ParsePrimary(ts: Tokens): (p: Parsed<Expr>)
    ensures p.Done? ==> |p.rest| < |ts|
    decreases |ts|, 2
  {
    match Head(ts)
    case CASE => ParseCase(ts)
    case LPAREN => if Second(ts) == SELECT then Failed else ParseParenthesized(ts[1..])
    case IDENTIFIER =>
      if Second(ts) != LPAREN then ParseColumn(ts)
      else if IsAggregateName(ts[0].lexeme) then ParseAggregate(ts)
      else ParseCall(ts)
    case _ => UnsignedLiteral(ts)
  }

  function ParseParenthesized(ts: Tokens): (p: Parsed<Expr>)
    ensures p.Done? ==> |p.rest| < |ts|
    decreases |ts|, 11
  {
    match ParseOr(ts)
    case Failed => Failed
    case Done(e, rest) => if Head(rest) == RPAREN then Done(e, rest[1..]) else Failed
  }

  function ParseColumn(ts: Tokens): (p: Parsed<Expr>)
    ensures p.Done? ==> |p.rest| < |ts|
  {
    if Head(ts) != IDENTIFIER then Failed
    else if Second(ts) != DOT then Done(Column("", ts[0].lexeme, -1), ts[1..])
    else if Head(ts[2..]) == IDENTIFIER then Done(Column(ts[0].lexeme, ts[2].lexeme, -1), ts[3..])
    else Failed
  }

  function ParseAggregate(ts: Tokens): (p: Parsed<Expr>)
    requires Head(ts) == IDENTIFIER
    ensures p.Done? ==> |p.rest| < |ts|
  {
    if Second(ts) != LPAREN then Failed
    else
      var distinct := Head(ts[2..]) == DISTINCT;
      AggregateBody(Upper(ts[0].lexeme), distinct, if distinct then ts[3..] else ts[2..])
  }

  /** An aggregate's argument, a star or a column. */
  function AggregateBody(name: string, distinct: bool, ts: Tokens): (p: Parsed<Expr>)
    ensures p.Done? ==> |p.rest| < |ts|
  {
    if Head(ts) == STAR then
      if Second(ts) == RPAREN then Done(Aggregate(name, true, distinct, "", ""), ts[2..]) else Failed
    else
      match ParseColumn(ts)
      case Failed => Failed
      case Done(c, rest) =>
        if c.Column? && Head(rest) == RPAREN then Done(Aggregate(name, false, distinct, c.table, c.column), rest[1..])
        else Failed
  }

  function ParseCall(ts: Tokens): (p: Parsed<Expr>)
    requires Head(ts) == IDENTIFIER && Second(ts) == LPAREN
    ensures p.Done? ==> |p.rest| < |ts|
    decreases |ts|, 1
  {
    var name := Upper(ts[0].lexeme);
    if name == "CAST" then ParseCast(ts[2..])
    else if Head(ts[2..]) == RPAREN then Done(Call(name, []), ts[3..])
    else
      match ParseArgs([], ts[2..])
      case Failed => Failed
      case Done(args, rest) => if Head(rest) == RPAREN then Done(Call(name, args), rest[1..]) else Failed
  }

  function ParseArgs(args: seq<Expr>, ts: Tokens): (p: Parsed<seq<Expr>>)
    ensures p.Done? ==> |p.rest| < |ts|
    decreases |ts|, 11
  {
    match ParseOr(ts)
    case Failed => Failed
    case Done(e, rest) =>
      if Head(rest) == COMMA then ParseArgs(args + [e], rest[1..]) else Done(args + [e], rest)
  }

  function ParseCast(ts: Tokens): (p: Parsed<Expr>)
    ensures p.Done? ==> |p.rest| < |ts|
    decreases |ts|, 11
  {
    match ParseOr(ts)
    case Failed => Failed
    case Done(e, rest) =>
      if Head(rest) != AS then Failed
      else
        match ParseCastType(rest[1..])
        case Failed => Failed
        case Done(target, end) => if Head(end) == RPAREN then Done(Cast(e, target), end[1..]) else Failed
  }

  function ParseCastType(ts: Tokens): (p: Parsed<DataType>)
    ensures p.Done? ==> |p.rest| < |ts|
  {
    if Head(ts) == VARCHAR then VarcharLength(ts[1..])
    else if ToDataType(Head(ts)).Some? then Done(ToDataType(Head(ts)).value, ts[1..])
    else Failed
  }

  /** VARCHAR may carry a length, which a cast ignores. */
  function VarcharLength(ts: Tokens): (p: Parsed<DataType>)
    ensures p.Done? ==> |p.rest| <= |ts|
  {
    if Head(ts) != LPAREN then Done(VarcharType, ts)
    else if Second(ts) == INTEGER_LITERAL && Head(ts[2..]) == RPAREN then Done(VarcharType, ts[3..])
    else Failed
  }

  function ParseCase(ts: Tokens): (p: Parsed<Expr>)
    requires Head(ts) == CASE
    ensures p.Done? ==> |p.rest| < |ts|
    decreases |ts|, 1
  {
    match ParseBranches([], ts[1..])
    case Failed => Failed
    case Done(branches, rest) => if branches == [] then Failed else CaseEnd(branches, rest)
  }

  /** The branch keyword is the dialect's WHERE token, spelled WHEN. */
  function ParseBranches(branches: seq<Branch>, ts: Tokens): (p: Parsed<seq<Branch>>)
    ensures p.Done? ==> |p.rest| <= |ts|
    decreases |ts|, 11
  {
    if Head(ts) != WHERE then Done(branches, ts)
    else
      match ParseOr(ts[1..])
      case Failed => Failed
      case Done(cond, rest) =>
        if Head(rest) != THEN then Failed
        else
          match ParseAdditive(rest[1..])
          case Failed => Failed
          case Done(then_, end) => ParseBranches(branches + [Branch(cond, then_)], end)
  }

  function CaseEnd(branches: seq<Branch>, ts: Tokens): (p: Parsed<Expr>)
    ensures p.Done? ==> |p.rest| < |ts|
    decreases |ts|, 11
  {
    if Head(ts) != ELSE then
      if Head(ts) == END then Done(Case(branches, None), ts[1..]) else Failed
    else
      match ParseAdditive(ts[1..])
      case Failed => Failed
      case Done(e, rest) => if Head(rest) == END then Done(Case(branches, Some(e)), rest[1..]) else Failed
  }
  // ----- The parser object

  /** What a parse method must report: the value read with the cursor behind it, or an error. */
  ghost predicate Reads<T>(p: Parsed<T>, r: Option<T>, rest: Tokens) {
    match p
    case Failed => r.None?
    case Done(v, ts) => r == Some(v) && rest == ts
  }

  class Parser {
    const tokens: Tokens
    var pos: nat

    constructor (tokens: Tokens)
      requires tokens != [] && tokens[|tokens| - 1].kind == END_OF_FILE
      ensures this.tokens == tokens && pos == 0 && Valid() && Rest() == tokens
    {
      this.tokens := tokens;
      pos := 0;
    }

    ghost predicate Valid()
      reads this
    {
      pos < |tokens| && tokens[|tokens| - 1].kind == END_OF_FILE
    }

    ghost function Rest(): Tokens
      reads this
      requires Valid()
    {
      tokens[pos..]
    }

    function Peek(): (k: TokenType)
      reads this
      requires Valid()
      ensures k == Head(Rest())
    {
      tokens[pos].kind
    }

    /** The token kind one place on; the end marker stands for everything behind it. */
    function PeekNext(): (k: TokenType)
      reads this
      requires Valid()
      ensures k == Second(Rest())
    {
      if pos + 1 < |tokens| then tokens[pos + 1].kind else END_OF_FILE
    }

    method Advance() returns (t: Token)
      requires Valid() && Peek() != END_OF_FILE
      modifies this
      ensures Valid() && old(Rest()) == [t] + Rest() && Rest() == old(Rest())[1..]
    {
      t := tokens[pos];
      pos := pos + 1;
    }

    /** Steps over the next token if it is of this kind. */
    method Match(k: TokenType) returns (found: bool)
      requires Valid() && k != END_OF_FILE
      modifies this
      ensures Valid() && found == (Head(old(Rest())) == k)
      ensures Rest() == if found then old(Rest())[1..] else old(Rest())
    {
      found := Peek() == k;
      if found {
        pos := pos + 1;
      }
    }

    method ParseWholeExpression() returns (r: Option<Expr>)
      requires Valid()
      modifies this
      ensures r == ParseWhole(old(Rest()))
    {
      r := ParseOrExpr();
      if r.None? {
        return;
      }
      var _ := Match(SEMICOLON);
      if Peek() != END_OF_FILE {
        return None;
      }
    }

    method ParseOrExpr() returns (r: Option<Expr>)
      requires Valid()
      modifies this
      ensures Valid() && Reads(ParseOr(old(Rest())), r, Rest())
      decreases |Rest()|, 10
    {
      hide ParseAnd;
      r := ParseAndExpr();
      if r.None? {
        return;
      }
      while true
        invariant Valid() && r.Some? && |Rest()| < |old(Rest())|
        invariant OrRest(r.value, Rest()) == ParseOr(old(Rest()))
        decreases |Rest()|
      {
        var more := Match(OR);
        if !more {
          return;
        }
        var right := ParseAndExpr();
        if right.None? {
          return None;
        }
        r := Some(Logical(Or, r.value, right.value));
      }
    }

    method ParseAndExpr() returns (r: Option<Expr>)
      requires Valid()
      modifies this
      ensures Valid() && Reads(ParseAnd(old(Rest())), r, Rest())
      decreases |Rest()|, 8
    {
      hide ParseNot;
      r := ParseNotExpr();
      if r.None? {
        return;
      }
      while true
        invariant Valid() && r.Some? && |Rest()| < |old(Rest())|
        invariant AndRest(r.value, Rest()) == ParseAnd(old(Rest()))
        decreases |Rest()|
      {
        var more := Match(AND);
        if !more {
          return;
        }
        var right := ParseNotExpr();
        if right.None? {
          return None;
        }
        r := Some(Logical(And, r.value, right.value));
      }
    }

    method ParseNotExpr() returns (r: Option<Expr>)
      requires Valid()
      modifies this
      ensures Valid() && Reads(ParseNot(old(Rest())), r, Rest())
      decreases |Rest()|, 7
    {
      hide ParseComparison;
      var negation := Match(NOT);
      if negation {
        r := ParseNotExpr();
        if r.Some? {
          r := Some(Not(r.value));
        }
      } else {
        r := ParseComparisonExpr();
      }
    }

    method ParseComparisonExpr() returns (r: Option<Expr>)
      requires Valid()
      modifies this
      ensures Valid() && Reads(ParseComparison(old(Rest())), r, Rest())
      decreases |Rest()|, 6
    {
      hide ParseAdditive, ComparisonRest;
      var left := ParseAdditiveExpr();
      if left.None? {
        return None;
      }
      r := FinishComparison(left.value);
    }

    method FinishComparison(left: Expr) returns (r: Option<Expr>)
      requires Valid()
      modifies this
      ensures Valid() && Reads(ComparisonRest(left, old(Rest())), r, Rest())
      decreases |Rest()|, 7
    {
      hide NullTest, NegatedComparison, ComparisonBody;
      if Peek() == IS {
        var _ := Advance();
        r := FinishNullTest(left);
        return;
      }
      var negated := CheckNegation();
      if negated {
        var _ := Advance();
      }
      r := FinishComparisonBody(left, negated);
    }

    method CheckNegation() returns (negated: bool)
      requires Valid()
      ensures negated == NegatedComparison(Rest())
      ensures negated ==> Peek() == NOT
    {
      negated := Peek() == NOT && (PeekNext() == IN || PeekNext() == BETWEEN || PeekNext() == LIKE);
    }

    method FinishComparisonBody(left: Expr, negated: bool) returns (r: Option<Expr>)
      requires Valid()
      modifies this
      ensures Valid() && Reads(ComparisonBody(left, negated, old(Rest())), r, Rest())
      decreases |Rest()|, 6
    {
      hide ParseAdditive, InTest, BetweenTest, LikeTest, ToComparison;
      var op := ToComparison(Peek());
      if Peek() == IN {
        var _ := Advance();
        r := FinishIn(left, negated);
      } else if Peek() == BETWEEN {
        var _ := Advance();
        r := FinishBetween(left, negated);
      } else if Peek() == LIKE {
        var _ := Advance();
        r := FinishLike(left, negated);
      } else if op.Some? {
        ComparisonIsToken(Peek());
        var _ := Advance();
        var right := ParseAdditiveExpr();
        r := if right.Some? then Some(Compare(op.value, left, right.value)) else None;
      } else {
        r := Some(left);
      }
    }

    method FinishNullTest(left: Expr) returns (r: Option<Expr>)
      requires Valid()
      modifies this
      ensures Valid() && Reads(NullTest(left, old(Rest())), r, Rest())
    {
      var negated := Match(NOT);
      var isNull := Match(NULL_LITERAL);
      r := if isNull then Some(IsNull(left, negated)) else None;
    }

    method FinishIn(left: Expr, negated: bool) returns (r: Option<Expr>)
      requires Valid()
      modifies this
      ensures Valid() && Reads(InTest(left, negated, old(Rest())), r, Rest())
    {
      hide ParseLiteral, ParseItems;
      if Peek() != LPAREN || PeekNext() == SELECT {
        return None;
      }
      var _ := Advance();
      var items := ParseItemList();
      if items.None? {
        return None;
      }
      var closed := Match(RPAREN);
      r := if closed then Some(In(left, items.value, negated)) else None;
    }

    method ParseItemList() returns (r: Option<seq<Expr>>)
      requires Valid()
      modifies this
      ensures Valid() && Reads(ParseItems([], old(Rest())), r, Rest())
    {
      hide ParseLiteral;
      ghost var p := ParseItems([], Rest());
      var items := [];
      var more := true;
      while more
        invariant Valid()
        invariant if more then ParseItems(items, Rest()) == p else p == Done(items, Rest())
        decreases more, |Rest()|
      {
        var item := ParseLiteralExpr();
        if item.None? {
          return None;
        }
        items := items + [item.value];
        more := Match(COMMA);
      }
      r := Some(items);
    }

    method ParseLiteralExpr() returns (r: Option<Expr>)
      requires Valid()
      modifies this
      ensures Valid() && Reads(ParseLiteral(old(Rest())), r, Rest())
    {
      hide UnsignedLiteral, Signed;
      var signed := CheckSign();
      if signed {
        var sign := Advance();
        r := ParseUnsigned();
        if sign.kind == MINUS && r.Some? {
          r := Some(Negate(r.value));
        }
      } else {
        r := ParseUnsigned();
      }
    }

    method CheckSign() returns (signed: bool)
      requires Valid()
      ensures signed == Signed(Rest())
      ensures signed ==> Peek() == MINUS || Peek() == PLUS
    {
      signed := (Peek() == MINUS || Peek() == PLUS) && (PeekNext() == INTEGER_LITERAL || PeekNext() == FLOAT_LITERAL);
    }

    method ParseUnsigned() returns (r: Option<Expr>)
      requires Valid()
      modifies this
      ensures Valid() && Reads(UnsignedLiteral(old(Rest())), r, Rest())
    {
      hide MakeLiteral;
      if !IsLiteralToken(Peek()) {
        return None;
      }
      var t := Advance();
      r := MakeLiteral(t);
    }

    method FinishBetween(left: Expr, negated: bool) returns (r: Option<Expr>)
      requires Valid()
      modifies this
      ensures Valid() && Reads(BetweenTest(left, negated, old(Rest())), r, Rest())
      decreases |Rest()|, 6
    {
      hide ParseAdditive;
      var lo := ParseAdditiveExpr();
      if lo.None? {
        return None;
      }
      var and := Match(AND);
      if !and {
        return None;
      }
      var hi := ParseAdditiveExpr();
      r := if hi.Some? then Some(Between(left, lo.value, hi.value, negated)) else None;
    }

    method FinishLike(left: Expr, negated: bool) returns (r: Option<Expr>)
      requires Valid()
      modifies this
      ensures Valid() && Reads(LikeTest(left, negated, old(Rest())), r, Rest())
      decreases |Rest()|, 6
    {
      hide ParseAdditive;
      var pattern := ParseAdditiveExpr();
      r := if pattern.Some? then Some(Like(left, pattern.value, negated)) else None;
    }

    method ParseAdditiveExpr() returns (r: Option<Expr>)
      requires Valid()
      modifies this
      ensures Valid() && Reads(ParseAdditive(old(Rest())), r, Rest())
      decreases |Rest()|, 5
    {
      hide ParseMultiplicative;
      r := ParseMultiplicativeExpr();
      if r.None? {
        return;
      }
      while ToAdditive(Peek()).Some?
        invariant Valid() && r.Some? && |Rest()| < |old(Rest())|
        invariant AdditiveRest(r.value, Rest()) == ParseAdditive(old(Rest()))
        decreases |Rest()|
      {
        var op := ToAdditive(Peek()).value;
        var _ := Advance();
        var right := ParseMultiplicativeExpr();
        if right.None? {
          return None;
        }
        r := Some(Arith(op, r.value, right.value));
      }
    }

    method ParseMultiplicativeExpr() returns (r: Option<Expr>)
      requires Valid()
      modifies this
      ensures Valid() && Reads(ParseMultiplicative(old(Rest())), r, Rest())
      decreases |Rest()|, 4
    {
      hide ParseUnary;
      r := ParseUnaryExpr();
      if r.None? {
        return;
      }
      while ToMultiplicative(Peek()).Some?
        invariant Valid() && r.Some? && |Rest()| < |old(Rest())|
        invariant MultiplicativeRest(r.value, Rest()) == ParseMultiplicative(old(Rest()))
        decreases |Rest()|
      {
        var op := ToMultiplicative(Peek()).value;
        var _ := Advance();
        var right := ParseUnaryExpr();
        if right.None? {
          return None;
        }
        r := Some(Arith(op, r.value, right.value));
      }
    }

    method ParseUnaryExpr() returns (r: Option<Expr>)
      requires Valid()
      modifies this
      ensures Valid() && Reads(ParseUnary(old(Rest())), r, Rest())
      decreases |Rest()|, 3
    {
      hide ParsePrimary;
      if Peek() == MINUS {
        var _ := Advance();
        r := ParseUnaryExpr();
        if r.Some? {
          r := Some(Negate(r.value));
        }
      } else if Peek() == PLUS {
        var _ := Advance();
        r := ParseUnaryExpr();
      } else {
        r := ParsePrimaryExpr();
      }
    }

    method ParsePrimaryExpr() returns (r: Option<Expr>)
      requires Valid()
      modifies this
      ensures Valid() && Reads(ParsePrimary(old(Rest())), r, Rest())
      decreases |Rest()|, 2
    {
      hide ParseCase, ParseCall, ParseAggregate, ParseColumn, ParseParenthesized, UnsignedLiteral, IsAggregateName;
      if Peek() == CASE {
        r := ParseCaseExpr();
      } else if Peek() == IDENTIFIER && PeekNext() == LPAREN {
        if IsAggregateName(tokens[pos].lexeme) {
          r := ParseAggregateExpr();
        } else {
          r := ParseCallExpr();
        }
      } else if Peek() == LPAREN {
        if PeekNext() == SELECT {
          return None;
        }
        var _ := Advance();
        r := ParseParenthesizedExpr();
      } else if Peek() == IDENTIFIER {
        r := ParseColumnExpr();
      } else {
        r := ParseUnsigned();
      }
    }

    method ParseParenthesizedExpr() returns (r: Option<Expr>)
      requires Valid()
      modifies this
      ensures Valid() && Reads(ParseParenthesized(old(Rest())), r, Rest())
      decreases |Rest()|, 11
    {
      hide ParseOr;
      r := ParseOrExpr();
      if r.Some? {
        var closed := Match(RPAREN);
        r := if closed then r else None;
      }
    }

    method ParseColumnExpr() returns (r: Option<Expr>)
      requires Valid()
      modifies this
      ensures Valid() && Reads(ParseColumn(old(Rest())), r, Rest())
    {
      if Peek() != IDENTIFIER {
        return None;
      }
      var first := Advance();
      var qualified := Match(DOT);
      if !qualified {
        return Some(Column("", first.lexeme, -1));
      }
      if Peek() != IDENTIFIER {
        return None;
      }
      var second := Advance();
      r := Some(Column(first.lexeme, second.lexeme, -1));
    }

    method ParseAggregateExpr() returns (r: Option<Expr>)
      requires Valid() && Peek() == IDENTIFIER
      modifies this
      ensures Valid() && Reads(ParseAggregate(old(Rest())), r, Rest())
    {
      hide AggregateBody, Upper;
      var t := Advance();
      var name := Upper(t.lexeme);
      var open := Match(LPAREN);
      if !open {
        return None;
      }
      var distinct := Match(DISTINCT);
      r := FinishAggregate(name, distinct);
    }

    method FinishAggregate(name: string, distinct: bool) returns (r: Option<Expr>)
      requires Valid()
      modifies this
      ensures Valid() && Reads(AggregateBody(name, distinct, old(Rest())), r, Rest())
    {
      hide ParseColumn;
      var star := Match(STAR);
      var column := Some(Column("", "", -1));
      if !star {
        column := ParseColumnExpr();
      }
      if column.None? || !column.value.Column? {
        return None;
      }
      var closed := Match(RPAREN);
      r := if closed then Some(Aggregate(name, star, distinct, column.value.table, column.value.column)) else None;
    }

    method ParseCallExpr() returns (r: Option<Expr>)
      requires Valid() && Peek() == IDENTIFIER && PeekNext() == LPAREN
      modifies this
      ensures Valid() && Reads(ParseCall(old(Rest())), r, Rest())
      decreases |Rest()|, 1
    {
      hide ParseArgs, ParseCast, Upper;
      var t := Advance();
      var name := Upper(t.lexeme);
      var _ := Advance();
      assert Rest() == old(Rest())[2..];
      if name == "CAST" {
        r := ParseCastExpr();
        return;
      }
      var args := Some([]);
      if Peek() != RPAREN {
        args := ParseArgList();
      }
      if args.None? {
        return None;
      }
      var closed := Match(RPAREN);
      r := if closed then Some(Call(name, args.value)) else None;
    }

    method ParseArgList() returns (r: Option<seq<Expr>>)
      requires Valid()
      modifies this
      ensures Valid() && Reads(ParseArgs([], old(Rest())), r, Rest())
      decreases |Rest()|, 11
    {
      hide ParseOr;
      ghost var p := ParseArgs([], Rest());
      var args := [];
      var more := true;
      while more
        invariant Valid() && |Rest()| <= |old(Rest())|
        invariant if more then ParseArgs(args, Rest()) == p else p == Done(args, Rest())
        decreases more, |Rest()|
      {
        var arg := ParseOrExpr();
        if arg.None? {
          return None;
        }
        args := args + [arg.value];
        more := Match(COMMA);
      }
      r := Some(args);
    }

    method ParseCastExpr() returns (r: Option<Expr>)
      requires Valid()
      modifies this
      ensures Valid() && Reads(ParseCast(old(Rest())), r, Rest())
      decreases |Rest()|, 11
    {
      hide ParseOr, ParseCastType;
      var e := ParseOrExpr();
      if e.None? {
        return None;
      }
      var as_ := Match(AS);
      if !as_ {
        return None;
      }
      var target := ParseType();
      if target.None? {
        return None;
      }
      var closed := Match(RPAREN);
      r := if closed then Some(Cast(e.value, target.value)) else None;
    }

    method ParseType() returns (r: Option<DataType>)
      requires Valid()
      modifies this
      ensures Valid() && Reads(ParseCastType(old(Rest())), r, Rest())
    {
      hide VarcharLength;
      r := ToDataType(Peek());
      if r.None? {
        return;
      }
      var t := Advance();
      if t.kind == VARCHAR {
        r := FinishVarchar();
      }
    }

    method FinishVarchar() returns (r: Option<DataType>)
      requires Valid()
      modifies this
      ensures Valid() && Reads(VarcharLength(old(Rest())), r, Rest())
    {
      var sized := Match(LPAREN);
      if sized {
        var length := Match(INTEGER_LITERAL);
        if !length {
          return None;
        }
        var closed := Match(RPAREN);
        if !closed {
          return None;
        }
      }
      r := Some(VarcharType);
    }

    method ParseCaseExpr() returns (r: Option<Expr>)
      requires Valid() && Peek() == CASE
      modifies this
      ensures Valid() && Reads(ParseCase(old(Rest())), r, Rest())
      decreases |Rest()|, 1
    {
      hide ParseBranches, CaseEnd;
      var _ := Advance();
      var branches := ParseBranchList();
      if branches.None? || branches.value == [] {
        return None;
      }
      r := FinishCase(branches.value);
    }

    method ParseBranchList() returns (r: Option<seq<Branch>>)
      requires Valid()
      modifies this
      ensures Valid() && Reads(ParseBranches([], old(Rest())), r, Rest())
      decreases |Rest()|, 12
    {
      hide ParseOr, ParseAdditive;
      ghost var p := ParseBranches([], Rest());
      var branches: seq<Branch> := [];
      while true
        invariant Valid() && ParseBranches(branches, Rest()) == p && |Rest()| <= |old(Rest())|
        decreases |Rest()|
      {
        var more := Match(WHERE);
        if !more {
          return Some(branches);
        }
        var cond := ParseOrExpr();
        if cond.None? {
          return None;
        }
        var then_ := Match(THEN);
        if !then_ {
          return None;
        }
        var value := ParseAdditiveExpr();
        if value.None? {
          return None;
        }
        branches := branches + [Branch(cond.value, value.value)];
      }
    }

    method FinishCase(branches: seq<Branch>) returns (r: Option<Expr>)
      requires Valid()
      modifies this
      ensures Valid() && Reads(CaseEnd(branches, old(Rest())), r, Rest())
      decreases |Rest()|, 11
    {
      hide ParseAdditive;
      var orElse := None;
      var more := Match(ELSE);
      if more {
        orElse := ParseAdditiveExpr();
        if orElse.None? {
          return None;
        }
      }
      var end := Match(END);
      r := if end then Some(Case(branches, orElse)) else None;
    }
  }
}
