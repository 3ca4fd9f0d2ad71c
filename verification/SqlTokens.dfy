/** The tokens an expression prints as, the expressions the parser can produce, and what one of
    them becomes when it is printed and parsed again. */
module SqlTokens {
  import opened Values
  import opened SqlAst
  import opened SqlLexer
  import opened SqlParser
  import opened SqlPrinter

  const LP := Token(LPAREN, "(")
  const RP := Token(RPAREN, ")")
  const MINUS_SIGN := Token(MINUS, "-")

  function ComparisonToken(op: ComparisonOp): Token {
    match op
    case Eq => Token(EQ, "=")
    case Neq => Token(NEQ, "!=")
    case Lt => Token(LT, "<")
    case Leq => Token(LEQ, "<=")
    case Gt => Token(GT, ">")
    case Geq => Token(GEQ, ">=")
  }

  function ArithmeticToken(op: ArithmeticOp): Token {
    match op
    case Add => Token(PLUS, "+")
    case Sub => Token(MINUS, "-")
    case Mul => Token(STAR, "*")
    case Div => Token(SLASH, "/")
  }

  function LogicalToken(op: LogicalOp): Token {
    match op
    case And => Token(AND, "AND")
    case Or => Token(OR, "OR")
  }

  function TypeToken(t: DataType): Token {
    var kind :=
      match t
      case IntType => INT_TYPE
      case BoolType => BOOL_TYPE
      case TextType => TEXT_TYPE
      case VarcharType => VARCHAR
      case FloatType => FLOAT_TYPE
      case DateType => DATE_TYPE
      case TimestampType => TIMESTAMP_TYPE;
    Token(kind, TypeName(t))
  }

  function NotTokens(negated: bool): Tokens {
    if negated then [Token(NOT, "NOT")] else []
  }

  /** The tokens between the parentheses of a printed compound expression. */
  function Inner(e: Expr): Tokens
    decreases e, 0
  {
    match e
    case Compare(op, l, r) => TokensOf(l) + ([ComparisonToken(op)] + TokensOf(r))
    case Arith(op, l, r) => TokensOf(l) + ([ArithmeticToken(op)] + TokensOf(r))
    case Logical(op, l, r) => TokensOf(l) + ([LogicalToken(op)] + TokensOf(r))
    case Not(x) => [Token(NOT, "NOT")] + TokensOf(x)
    case IsNull(x, negated) => TokensOf(x) + ([Token(IS, "IS")] + NotTokens(negated) + [Token(NULL_LITERAL, "NULL")])
    case Between(v, lo, hi, negated) =>
      TokensOf(v) + (NotTokens(negated) + ([Token(BETWEEN, "BETWEEN")] + (TokensOf(lo) + ([Token(AND, "AND")] + TokensOf(hi)))))
    case Like(v, p, negated) => TokensOf(v) + (NotTokens(negated) + ([Token(LIKE, "LIKE")] + TokensOf(p)))
    case In(v, items, negated) => TokensOf(v) + (NotTokens(negated) + ([Token(IN, "IN"), LP] + (ListTokens(items) + [RP])))
    case _ => []
  }

  predicate IsCompound(e: Expr) {
    e.Compare? || e.Arith? || e.Logical? || e.Not? || e.IsNull? || e.Between? || e.Like? || e.In?
  }

  function IntTokens(i: int): Tokens {
    if i < 0 then [MINUS_SIGN, Token(INTEGER_LITERAL, Digits(-i))] else [Token(INTEGER_LITERAL, Digits(i))]
  }

  function FloatTokens(d: real): Tokens {
    if d < 0.0 then [MINUS_SIGN, Token(FLOAT_LITERAL, Fixed(-d))] else [Token(FLOAT_LITERAL, Fixed(d))]
  }

  function TokensOf(e: Expr): Tokens
    decreases e, 1
  {
    match e
    case IntLit(i) => IntTokens(i)
    case FloatLit(d) => FloatTokens(d)
    case StringLit(t) => [Token(STRING_LITERAL, t)]
    case BoolLit(b) => [if b then Token(TRUE, "TRUE") else Token(FALSE, "FALSE")]
    case NullLit => [Token(NULL_LITERAL, "NULL")]
    case Column(table, column, _) =>
      if table == "" then [Token(IDENTIFIER, column)]
      else [Token(IDENTIFIER, table), Token(DOT, "."), Token(IDENTIFIER, column)]
    case Cast(x, t) => [Token(IDENTIFIER, "CAST"), LP] + (TokensOf(x) + [Token(AS, "AS"), TypeToken(t), RP])
    case Call(name, args) => [Token(IDENTIFIER, name), LP] + (ListTokens(args) + [RP])
    case Case(branches, orElse) =>
      [Token(CASE, "CASE")] + (BranchesTokens(branches) + (ElseTokens(orElse) + [Token(END, "END")]))
    case Aggregate(_, _, _, _, _) => []
    case _ => [LP] + (Inner(e) + [RP])
  }

  lemma CompoundTokens(e: Expr)
    requires IsCompound(e)
    ensures TokensOf(e) == [LP] + (Inner(e) + [RP])
  {
    hide Inner;
  }

  function ListTokens(es: seq<Expr>): Tokens
    decreases es
  {
    if es == [] then []
    else if |es| == 1 then TokensOf(es[0])
    else TokensOf(es[0]) + ([Token(COMMA, ",")] + ListTokens(es[1..]))
  }

  function BranchesTokens(bs: seq<Branch>): Tokens
    decreases bs
  {
    if bs == [] then [] else BranchTokens(bs[0]) + BranchesTokens(bs[1..])
  }

  function BranchTokens(b: Branch): Tokens
    decreases b
  {
    [Token(WHERE, "WHEN")] + (TokensOf(b.cond) + ([Token(THEN, "THEN")] + TokensOf(b.then_)))
  }

  function ElseTokens(e: Option<Expr>): Tokens
    decreases e
  {
    match e
    case None => []
    case Some(x) => [Token(ELSE, "ELSE")] + TokensOf(x)
  }

  // ----- Which expressions survive

  /** A word the lexer takes for a name. */
  predicate IsName(s: string) {
    s != "" && IsIdentStart(s[0]) && (forall k :: 0 <= k < |s| ==> IsIdentPart(s[k])) && KeywordOf(Upper(s)).None?
  }

  /** The expressions the grammar can produce: names are names, calls are not aggregates or
      casts in disguise, IN lists hold literals, integers have a 64-bit magnitude. */
  predicate Grammatical(e: Expr) {
    match e
    case IntLit(i) => -INT64_MAX <= i <= INT64_MAX
    case Column(table, column, _) => (table == "" || IsName(table)) && IsName(column)
    case Compare(_, l, r) => Grammatical(l) && Grammatical(r)
    case Arith(_, l, r) => Grammatical(l) && Grammatical(r)
    case Logical(_, l, r) => Grammatical(l) && Grammatical(r)
    case Not(x) => Grammatical(x)
    case IsNull(x, _) => Grammatical(x)
    case Between(v, lo, hi, _) => Grammatical(v) && Grammatical(lo) && Grammatical(hi)
    case Like(v, p, _) => Grammatical(v) && Grammatical(p)
    case In(v, items, _) =>
      Grammatical(v) && items != [] && forall i :: 0 <= i < |items| ==> items[i].IsLiteral() && Grammatical(items[i])
    case Cast(x, _) => Grammatical(x)
    case Call(name, args) =>
      && IsName(name) && Upper(name) == name && !IsAggregateName(name) && name != "CAST"
      && forall i :: 0 <= i < |args| ==> Grammatical(args[i])
    case Case(branches, orElse) =>
      && branches != [] && (forall i :: 0 <= i < |branches| ==> GrammaticalBranch(branches[i]))
      && (orElse.Some? ==> Grammatical(orElse.value))
    case _ => true
  }

  predicate GrammaticalBranch(b: Branch) {
    Grammatical(b.cond) && Grammatical(b.then_)
  }

  /** What the printer and the parser work on together: the grammar's expressions without
      aggregate calls, on which the printer throws. */
  predicate Printable(e: Expr) {
    Grammatical(e) && NoAggregates(e)
  }

  // ----- What comes back

  /** A number as the printer's six decimals keep it. */
  function Rounded(d: real): real {
    if d < 0.0 then -(Millionths(-d) as real / 1000000.0) else Millionths(d) as real / 1000000.0
  }

  /** The expression printing and parsing yields: numbers rounded, columns not yet bound. */
  function Reloaded(e: Expr): Expr {
    match e
    case FloatLit(d) => FloatLit(Rounded(d))
    case Column(table, column, _) => Column(table, column, -1)
    case Compare(op, l, r) => Compare(op, Reloaded(l), Reloaded(r))
    case Arith(op, l, r) => Arith(op, Reloaded(l), Reloaded(r))
    case Logical(op, l, r) => Logical(op, Reloaded(l), Reloaded(r))
    case Not(x) => Not(Reloaded(x))
    case IsNull(x, n) => IsNull(Reloaded(x), n)
    case Between(v, lo, hi, n) => Between(Reloaded(v), Reloaded(lo), Reloaded(hi), n)
    case Like(v, p, n) => Like(Reloaded(v), Reloaded(p), n)
    case In(v, items, n) => In(Reloaded(v), ReloadedList(items), n)
    case Cast(x, t) => Cast(Reloaded(x), t)
    case Call(name, args) => Call(name, ReloadedList(args))
    case Case(bs, orElse) => Case(ReloadedBranches(bs), ReloadedElse(orElse))
    case _ => e
  }

  function ReloadedList(es: seq<Expr>): seq<Expr> {
    if es == [] then [] else [Reloaded(es[0])] + ReloadedList(es[1..])
  }

  function ReloadedBranches(bs: seq<Branch>): seq<Branch> {
    if bs == [] then [] else [ReloadedBranch(bs[0])] + ReloadedBranches(bs[1..])
  }

  function ReloadedBranch(b: Branch): Branch {
    Branch(Reloaded(b.cond), Reloaded(b.then_))
  }

  function ReloadedElse(e: Option<Expr>): Option<Expr> {
    match e
    case None => None
    case Some(x) => Some(Reloaded(x))
  }

  // ----- Numbers

  lemma {:induction false} DigitsRead(n: nat)
    ensures DigitsValue(Digits(n)) == n
    ensures forall k :: 0 <= k < |Digits(n)| ==> IsDigit(Digits(n)[k])
  {
    if n >= 10 {
      DigitsRead(n / 10);
      var s := Digits(n);
      assert s[..|s| - 1] == Digits(n / 10);
    }
  }

  lemma DigitsValueAppend(s: string, d: nat)
    requires d < 10
    ensures DigitsValue(s + [Digit(d)]) == DigitsValue(s) * 10 + d
  {
    var t := s + [Digit(d)];
    assert t[..|t| - 1] == s;
  }

  lemma {:induction false} SplitDigitsRead(n: nat, k: nat)
    ensures DigitsValue(Digits(LeadingDigits(n, k)) + LastDigits(n, k)) == n
    ensures forall i :: 0 <= i < k ==> IsDigit(LastDigits(n, k)[i])
  {
    hide Digits, DigitsValue;
    var lead := Digits(LeadingDigits(n, k));
    DigitsRead(LeadingDigits(n, k));
    if k == 0 {
      assert lead + LastDigits(n, k) == lead;
    } else {
      SplitDigitsRead(n / 10, k - 1);
      var s := lead + LastDigits(n / 10, k - 1);
      DigitsValueAppend(s, n % 10);
      assert lead + LastDigits(n, k) == s + [Digit(n % 10)];
    }
  }

  /** What a printed decimal number reads as: the number, rounded to millionths. */
  lemma FixedRead(d: real)
    requires d >= 0.0
    ensures DecimalValue(Fixed(d)) == Millionths(d) as real / 1000000.0
    ensures DigitLength(Fixed(d)) < |Fixed(d)| - 1 && NumberLength(Fixed(d)) == |Fixed(d)|
    ensures forall k :: 0 <= k < |Fixed(d)| && k != DigitLength(Fixed(d)) ==> IsDigit(Fixed(d)[k])
    ensures Fixed(d)[DigitLength(Fixed(d))] == '.'
  {
    hide Digits, LastDigits, LeadingDigits, Millionths, DigitLength, DigitsValue, IsDigit, Power10;
    var n := Millionths(d);
    var lead, tail := Digits(LeadingDigits(n, 6)), LastDigits(n, 6);
    var s := Fixed(d);
    DigitsRead(LeadingDigits(n, 6));
    SplitDigitsRead(n, 6);
    PointIsNoDigit();
    DigitRun(s, |lead|);
    assert s[|lead| + 1..] == tail && s[..|lead|] == lead;
    DigitRun(tail, 6);
    SixDigits();
  }

  lemma PointIsNoDigit()
    ensures !IsDigit('.')
  {
  }

  lemma SixDigits()
    ensures Power10(6) == 1000000
  {
    assert Power10(3) == 1000;
  }
}
