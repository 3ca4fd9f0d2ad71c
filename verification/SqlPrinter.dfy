/** Printing expressions back to text, and loading a printed CHECK constraint again. */
module SqlPrinter {
  import opened Values
  import opened SqlAst
  import opened SqlLexer
  import opened SqlParser

  // ----- Numbers as text

  function Digit(d: nat): char
    requires d < 10
  {
    '0' + d as char
  }

  function Digits(n: nat): (s: string)
    ensures s != ""
  {
    if n < 10 then [Digit(n)] else Digits(n / 10) + [Digit(n % 10)]
  }

  /** The last k decimal digits. */
  function LastDigits(n: nat, k: nat): (s: string)
    ensures |s| == k
  {
    if k == 0 then "" else LastDigits(n / 10, k - 1) + [Digit(n % 10)]
  }

  /** The number without its last k decimal digits. */
  function LeadingDigits(n: nat, k: nat): nat {
    if k == 0 then n else LeadingDigits(n / 10, k - 1)
  }

  /** A number rounded to millionths, the precision the printer keeps. */
  function Millionths(d: real): nat
    requires d >= 0.0
  {
    (d * 1000000.0 + 0.5).Floor
  }

  function Fixed(d: real): string
    requires d >= 0.0
  {
    Digits(LeadingDigits(Millionths(d), 6)) + "." + LastDigits(Millionths(d), 6)
  }

  // ----- The printer

  function ComparisonText(op: ComparisonOp): string {
    match op
    case Eq => "="
    case Neq => "!="
    case Lt => "<"
    case Leq => "<="
    case Gt => ">"
    case Geq => ">="
  }

  function ArithmeticText(op: ArithmeticOp): string {
    match op
    case Add => "+"
    case Sub => "-"
    case Mul => "*"
    case Div => "/"
  }

  function TypeName(t: DataType): string {
    match t
    case IntType => "INT"
    case BoolType => "BOOL"
    case TextType => "TEXT"
    case VarcharType => "VARCHAR"
    case FloatType => "FLOAT"
    case DateType => "DATE"
    case TimestampType => "TIMESTAMP"
  }

  /** Quotes inside a text are doubled. */
  function Doubled(s: string): string {
    if s == "" then "" else (if s[0] == '\'' then "''" else [s[0]]) + Doubled(s[1..])
  }

  function Spaced(w: string): string {
    " " + w + " "
  }

  function Negation(negated: bool): string {
    if negated then " NOT" else ""
  }

  function Print(e: Expr): string {
    match e
    case IntLit(i) => if i < 0 then "-" + Digits(-i) else Digits(i)
    case FloatLit(d) => if d < 0.0 then "-" + Fixed(-d) else Fixed(d)
    case StringLit(t) => "'" + Doubled(t) + "'"
    case BoolLit(b) => if b then "TRUE" else "FALSE"
    case NullLit => "NULL"
    case Column(table, column, _) => if table == "" then column else table + "." + column
    case Compare(op, l, r) => "(" + Print(l) + Spaced(ComparisonText(op)) + Print(r) + ")"
    case Arith(op, l, r) => "(" + Print(l) + Spaced(ArithmeticText(op)) + Print(r) + ")"
    case Logical(op, l, r) => "(" + Print(l) + Spaced(if op == And then "AND" else "OR") + Print(r) + ")"
    case Not(x) => "(NOT " + Print(x) + ")"
    case IsNull(x, negated) => "(" + Print(x) + (if negated then " IS NOT NULL)" else " IS NULL)")
    case Between(v, lo, hi, negated) =>
      "(" + Print(v) + (Negation(negated) + Spaced("BETWEEN")) + Print(lo) + Spaced("AND") + Print(hi) + ")"
    case Like(v, p, negated) => "(" + Print(v) + (Negation(negated) + Spaced("LIKE")) + Print(p) + ")"
    case In(v, items, negated) => "(" + Print(v) + (Negation(negated) + " IN (") + PrintList(items) + "))"
    case Cast(x, t) => "CAST(" + Print(x) + (Spaced("AS") + TypeName(t) + ")")
    case Call(name, args) => name + "(" + PrintList(args) + ")"
    case Case(branches, orElse) => "CASE" + PrintBranches(branches) + PrintElse(orElse) + " END"
    case Aggregate(_, _, _, _, _) => ""
  }

  function PrintList(es: seq<Expr>): string {
    if es == [] then ""
    else if |es| == 1 then Print(es[0])
    else Print(es[0]) + ", " + PrintList(es[1..])
  }

  function PrintBranches(bs: seq<Branch>): string {
    if bs == [] then "" else PrintBranch(bs[0]) + PrintBranches(bs[1..])
  }

  function PrintBranch(b: Branch): string {
    Spaced("WHEN") + Print(b.cond) + Spaced("THEN") + Print(b.then_)
  }

  function PrintElse(e: Option<Expr>): string {
    match e
    case None => ""
    case Some(x) => Spaced("ELSE") + Print(x)
  }

  /** No aggregate call anywhere; the printer throws on one. */
  predicate NoAggregates(e: Expr) {
    match e
    case Compare(_, l, r) => NoAggregates(l) && NoAggregates(r)
    case Arith(_, l, r) => NoAggregates(l) && NoAggregates(r)
    case Logical(_, l, r) => NoAggregates(l) && NoAggregates(r)
    case Not(x) => NoAggregates(x)
    case IsNull(x, _) => NoAggregates(x)
    case Between(v, lo, hi, _) => NoAggregates(v) && NoAggregates(lo) && NoAggregates(hi)
    case Like(v, p, _) => NoAggregates(v) && NoAggregates(p)
    case In(v, items, _) => NoAggregates(v) && forall i :: 0 <= i < |items| ==> NoAggregates(items[i])
    case Cast(x, _) => NoAggregates(x)
    case Call(_, args) => forall i :: 0 <= i < |args| ==> NoAggregates(args[i])
    case Case(branches, orElse) =>
      (forall i :: 0 <= i < |branches| ==> NoAggregatesIn(branches[i])) && (orElse.Some? ==> NoAggregates(orElse.value))
    case Aggregate(_, _, _, _, _) => false
    case _ => true
  }

  predicate NoAggregatesIn(b: Branch) {
    NoAggregates(b.cond) && NoAggregates(b.then_)
  }

  /** What the printer returns; none stands for the exception it throws. */
  function ExpressionToString(e: Expr): Option<string> {
    if NoAggregates(e) then Some(Print(e)) else None
  }

  /** What loading a stored constraint makes of its text; none when it does not parse. */
  function Reload(text: string): Option<Expr> {
    ParseWhole(Lex(text))
  }

  /** The stages run on the lexer and the parser objects. */
  method LoadCheck(text: string) returns (r: Option<Expr>)
    ensures r == Reload(text)
  {
    var lexer := new Lexer(text);
    var tokens := lexer.Tokenize();
    var parser := new Parser(tokens);
    r := parser.ParseWholeExpression();
  }
}
