/** Expression evaluation on a row: three-valued logic, arithmetic with truncating integer
    division, and the other operators. */
module Evaluator {
  import opened Values
  import opened SqlAst
  import LikeMatch

  /** Scalar functions and casts, which this model does not look into. */
  datatype Functions = Functions(call: (string, seq<Value>) -> Value, cast: (Value, DataType) -> Value)

  /** Integer division that drops the fraction. */
  function Quotient(a: int, b: int): int
    requires b != 0
  {
    if (a < 0) == (b < 0) then Abs(a) / Abs(b) else -(Abs(a) / Abs(b))
  }

  function Abs(a: int): nat {
    if a < 0 then -a else a
  }

  function Holds(op: ComparisonOp, c: int): bool {
    match op
    case Eq => c == 0
    case Neq => c != 0
    case Lt => c < 0
    case Leq => c <= 0
    case Gt => c > 0
    case Geq => c >= 0
  }

  function CompareWith(op: ComparisonOp, l: Value, r: Value): Value {
    match CompareValues(l, r)
    case None => Null
    case Some(c) => Bool(Holds(op, c))
  }

  function Arithmetic(op: ArithmeticOp, l: Value, r: Value): Value {
    if !l.IsNumeric() || !r.IsNumeric() then Null
    else if l.Int? && r.Int? then
      match op
      case Add => Int(l.i + r.i)
      case Sub => Int(l.i - r.i)
      case Mul => Int(l.i * r.i)
      case Div => if r.i == 0 then Null else Int(Quotient(l.i, r.i))
    else
      match op
      case Add => Double(l.AsReal() + r.AsReal())
      case Sub => Double(l.AsReal() - r.AsReal())
      case Mul => Double(l.AsReal() * r.AsReal())
      case Div => if r.AsReal() == 0.0 then Null else Double(l.AsReal() / r.AsReal())
  }

  /** AND and OR: a deciding operand decides even next to one that is no truth value. */
  function Connect(op: LogicalOp, l: Value, r: Value): Value {
    var decider := op == Or;
    if l == Bool(decider) || r == Bool(decider) then Bool(decider)
    else if l.Bool? && r.Bool? then Bool(!decider)
    else Null
  }

  function Negated(v: Value): Value {
    if v.Bool? then Bool(!v.b) else Null
  }

  function InRange(v: Value, lo: Value, hi: Value, negated: bool): Value {
    match (CompareValues(v, lo), CompareValues(v, hi))
    case (Some(l), Some(h)) => Bool((l >= 0 && h <= 0) != negated)
    case _ => Null
  }

  function LikeWith(v: Value, p: Value, negated: bool): Value {
    if v.Text? && p.Text? then Bool(LikeMatch.Matched(v.t, p.t) != negated) else Null
  }

  /** IN: found, or unknown when some item is NULL, or not found. */
  function AmongItems(v: Value, items: seq<Value>, negated: bool): Value {
    if v.Null? then Null
    else if exists i :: 0 <= i < |items| && CompareValues(v, items[i]) == Some(0) then Bool(!negated)
    else if Null in items then Null
    else Bool(negated)
  }

  function Eval(e: Expr, row: Row, fns: Functions): Value
    decreases e
  {
    match e
    case IntLit(i) => Int(i)
    case FloatLit(d) => Double(d)
    case StringLit(t) => Text(t)
    case BoolLit(b) => Bool(b)
    case NullLit => Null
    case Column(_, _, index) => if 0 <= index < |row| then row[index] else Null
    case Compare(op, l, r) => CompareWith(op, Eval(l, row, fns), Eval(r, row, fns))
    case Arith(op, l, r) => Arithmetic(op, Eval(l, row, fns), Eval(r, row, fns))
    case Logical(op, l, r) => Connect(op, Eval(l, row, fns), Eval(r, row, fns))
    case Not(x) => Negated(Eval(x, row, fns))
    case IsNull(x, negated) => Bool(Eval(x, row, fns).Null? != negated)
    case Between(v, lo, hi, negated) => InRange(Eval(v, row, fns), Eval(lo, row, fns), Eval(hi, row, fns), negated)
    case Like(v, p, negated) => LikeWith(Eval(v, row, fns), Eval(p, row, fns), negated)
    case In(v, items, negated) => AmongItems(Eval(v, row, fns), EvalAll(items, row, fns), negated)
    case Call(name, args) => fns.call(name, EvalAll(args, row, fns))
    case Cast(x, t) => fns.cast(Eval(x, row, fns), t)
    case Case(branches, orElse) =>
      var chosen := EvalBranches(branches, row, fns);
      if chosen.Some? then chosen.value else EvalElse(orElse, row, fns)
    case Aggregate(_, _, _, _, _) => Null
  }

  function EvalAll(es: seq<Expr>, row: Row, fns: Functions): seq<Value>
    decreases es
  {
    if es == [] then [] else [Eval(es[0], row, fns)] + EvalAll(es[1..], row, fns)
  }

  /** The value of the first branch whose condition is true. */
  function EvalBranches(bs: seq<Branch>, row: Row, fns: Functions): Option<Value>
    decreases bs
  {
    if bs == [] then None
    else
      var first := EvalBranch(bs[0], row, fns);
      if first.Some? then first else EvalBranches(bs[1..], row, fns)
  }

  function EvalBranch(b: Branch, row: Row, fns: Functions): Option<Value>
    decreases b
  {
    if Eval(b.cond, row, fns) == Bool(true) then Some(Eval(b.then_, row, fns)) else None
  }

  function EvalElse(orElse: Option<Expr>, row: Row, fns: Functions): Value
    decreases orElse
  {
    match orElse
    case None => Null
    case Some(x) => Eval(x, row, fns)
  }

  /** Only TRUE accepts a row; FALSE and unknown reject it. */
  predicate Accepts(e: Expr, row: Row, fns: Functions) {
    Eval(e, row, fns) == Bool(true)
  }

  /** The rows a WHERE clause keeps, in order. */
  function Filter(e: Expr, rows: seq<Row>, fns: Functions): seq<Row> {
    if rows == [] then []
    else (if Accepts(e, rows[0], fns) then [rows[0]] else []) + Filter(e, rows[1..], fns)
  }
}
