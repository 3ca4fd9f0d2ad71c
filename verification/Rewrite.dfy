/** Constant folding and algebraic simplification of WHERE and projection expressions, and
    the proof that they keep every row's value. */
module Rewrite {
  import opened Values
  import opened SqlAst
  import opened Evaluator

  /** Literals combined by arithmetic, comparison and logic only. */
  predicate IsFoldable(e: Expr) {
    match e
    case Arith(_, l, r) => IsFoldable(l) && IsFoldable(r)
    case Compare(_, l, r) => IsFoldable(l) && IsFoldable(r)
    case Logical(_, l, r) => IsFoldable(l) && IsFoldable(r)
    case Not(x) => IsFoldable(x)
    case _ => e.IsLiteral()
  }

  function LiteralOf(v: Value): (e: Expr)
    ensures e.IsLiteral()
  {
    match v
    case Int(i) => IntLit(i)
    case Double(d) => FloatLit(d)
    case Bool(b) => BoolLit(b)
    case Text(t) => StringLit(t)
    case Null => NullLit
  }

  /** A literal equal to the number, of either numeric type. */
  predicate IsNumber(e: Expr, n: int) {
    e == IntLit(n) || e == FloatLit(n as real)
  }

  /** x + 0, 0 + x, x - 0, x * 1, 1 * x and x / 1 are x. */
  function SimplifyArith(op: ArithmeticOp, l: Expr, r: Expr): Expr {
    match op
    case Add => if IsNumber(r, 0) then l else if IsNumber(l, 0) then r else Arith(op, l, r)
    case Sub => if IsNumber(r, 0) then l else Arith(op, l, r)
    case Mul => if IsNumber(r, 1) then l else if IsNumber(l, 1) then r else Arith(op, l, r)
    case Div => if IsNumber(r, 1) then l else Arith(op, l, r)
  }

  /** FALSE decides AND, TRUE decides OR; the other constant is dropped. */
  function SimplifyLogical(op: LogicalOp, l: Expr, r: Expr): Expr {
    var decider := op == Or;
    if l == BoolLit(decider) || r == BoolLit(decider) then BoolLit(decider)
    else if l == BoolLit(!decider) then r
    else if r == BoolLit(!decider) then l
    else Logical(op, l, r)
  }

  function RewriteExpression(e: Expr, fns: Functions): Expr {
    if IsFoldable(e) then LiteralOf(Eval(e, [], fns))
    else
      match e
      case Arith(op, l, r) => SimplifyArith(op, RewriteExpression(l, fns), RewriteExpression(r, fns))
      case Logical(op, l, r) => SimplifyLogical(op, RewriteExpression(l, fns), RewriteExpression(r, fns))
      case Compare(op, l, r) => Compare(op, RewriteExpression(l, fns), RewriteExpression(r, fns))
      case Not(x) => Not(RewriteExpression(x, fns))
      case _ => e
  }

  // ----- Well-typed expressions

  /** A number or NULL. */
  predicate Numeric(v: Value) {
    v.IsNumeric() || v.Null?
  }

  /** A truth value or NULL. */
  predicate Truth(v: Value) {
    v.Bool? || v.Null?
  }

  /** A float constant next to an integer would turn it into a float. */
  predicate MeetsFloat(constant: Expr, v: Value) {
    constant.FloatLit? ==> !v.Int?
  }

  /** On this row, arithmetic meets numbers, logic meets truth values, and float constants
      do not meet integers, wherever the rewriting looks. */
  predicate WellTyped(e: Expr, row: Row, fns: Functions) {
    match e
    case Arith(_, l, r) =>
      && WellTyped(l, row, fns) && WellTyped(r, row, fns)
      && Numeric(Eval(l, row, fns)) && Numeric(Eval(r, row, fns))
      && MeetsFloat(RewriteExpression(r, fns), Eval(l, row, fns))
      && MeetsFloat(RewriteExpression(l, fns), Eval(r, row, fns))
    case Logical(_, l, r) =>
      WellTyped(l, row, fns) && WellTyped(r, row, fns) && Truth(Eval(l, row, fns)) && Truth(Eval(r, row, fns))
    case Compare(_, l, r) => WellTyped(l, row, fns) && WellTyped(r, row, fns)
    case Not(x) => WellTyped(x, row, fns)
    case _ => true
  }

  // ----- The proof

  /** A foldable expression has one value, whatever the row and the functions. */
  lemma {:induction false} FoldableIsConstant(e: Expr, row: Row, row': Row, fns: Functions, fns': Functions)
    requires IsFoldable(e)
    ensures Eval(e, row, fns) == Eval(e, row', fns')
  {
    hide CompareWith, Arithmetic, Connect, Negated;
    match e
    case Arith(_, l, r) =>
      FoldableIsConstant(l, row, row', fns, fns');
      FoldableIsConstant(r, row, row', fns, fns');
    case Compare(_, l, r) =>
      FoldableIsConstant(l, row, row', fns, fns');
      FoldableIsConstant(r, row, row', fns, fns');
    case Logical(_, l, r) =>
      FoldableIsConstant(l, row, row', fns, fns');
      FoldableIsConstant(r, row, row', fns, fns');
    case Not(x) => FoldableIsConstant(x, row, row', fns, fns');
    case _ =>
  }

  lemma LiteralEval(v: Value, row: Row, fns: Functions)
    ensures Eval(LiteralOf(v), row, fns) == v
  {
  }

  /** The identity a simplification relies on. */
  predicate IsIdentity(op: ArithmeticOp, constant: Expr) {
    IsNumber(constant, if op == Add || op == Sub then 0 else 1)
  }

  /** Combining a value with an identity constant on the right keeps it exactly if it is a
      number or NULL, and not an integer next to a float constant. */
  lemma IdentityRight(op: ArithmeticOp, v: Value, constant: Expr, row: Row, fns: Functions)
    requires IsIdentity(op, constant)
    ensures Arithmetic(op, v, Eval(constant, row, fns)) == v <==> Numeric(v) && MeetsFloat(constant, v)
  {
    var c := if op == Add || op == Sub then 0 else 1;
    assert Eval(constant, row, fns) == if constant.IntLit? then Int(c) else Double(c as real);
    if v.Int? && op == Div {
      DivideByOne(v.i);
    }
  }

  lemma IdentityLeft(op: ArithmeticOp, constant: Expr, v: Value, row: Row, fns: Functions)
    requires (op == Add || op == Mul) && IsIdentity(op, constant) && Numeric(v) && MeetsFloat(constant, v)
    ensures Arithmetic(op, Eval(constant, row, fns), v) == v
  {
    var c := if op == Add then 0 else 1;
    assert Eval(constant, row, fns) == if constant.IntLit? then Int(c) else Double(c as real);
  }

  /** Simplifying an arithmetic node keeps its value. */
  lemma ArithKept(op: ArithmeticOp, l: Expr, r: Expr, row: Row, fns: Functions)
    requires Numeric(Eval(l, row, fns)) && Numeric(Eval(r, row, fns))
    requires MeetsFloat(r, Eval(l, row, fns)) && MeetsFloat(l, Eval(r, row, fns))
    ensures Eval(SimplifyArith(op, l, r), row, fns) == Arithmetic(op, Eval(l, row, fns), Eval(r, row, fns))
  {
    hide Arithmetic, Numeric, MeetsFloat, Eval, IsNumber;
    if IsIdentity(op, r) {
      IdentityRight(op, Eval(l, row, fns), r, row, fns);
      assert SimplifyArith(op, l, r) == l;
    } else if (op == Add || op == Mul) && IsIdentity(op, l) {
      IdentityLeft(op, l, Eval(r, row, fns), row, fns);
      assert SimplifyArith(op, l, r) == r;
    } else {
      assert SimplifyArith(op, l, r) == Arith(op, l, r);
      ArithValue(op, l, r, row, fns);
    }
  }

  lemma ArithValue(op: ArithmeticOp, l: Expr, r: Expr, row: Row, fns: Functions)
    ensures Eval(Arith(op, l, r), row, fns) == Arithmetic(op, Eval(l, row, fns), Eval(r, row, fns))
  {
    hide Arithmetic;
  }

  lemma DivideByOne(a: int)
    ensures Quotient(a, 1) == a
  {
  }

  /** The deciding constant decides, the other one is neutral. */
  lemma ConnectConstants(op: LogicalOp, v: Value)
    requires Truth(v)
    ensures Connect(op, Bool(op == Or), v) == Connect(op, v, Bool(op == Or)) == Bool(op == Or)
    ensures Connect(op, Bool(op == And), v) == Connect(op, v, Bool(op == And)) == v
  {
  }

  /** Simplifying a logical node keeps its value. */
  lemma LogicalKept(op: LogicalOp, l: Expr, r: Expr, row: Row, fns: Functions)
    requires Truth(Eval(l, row, fns)) && Truth(Eval(r, row, fns))
    ensures Eval(SimplifyLogical(op, l, r), row, fns) == Connect(op, Eval(l, row, fns), Eval(r, row, fns))
  {
    hide Eval, Connect, Truth;
    BoolValue(true, row, fns);
    BoolValue(false, row, fns);
    ConnectConstants(op, Eval(l, row, fns));
    ConnectConstants(op, Eval(r, row, fns));
    var e := SimplifyLogical(op, l, r);
    if op == And {
      if l == BoolLit(false) || r == BoolLit(false) {
        assert e == BoolLit(false);
      } else if l == BoolLit(true) {
        assert e == r;
      } else if r == BoolLit(true) {
        assert e == l;
      } else {
        LogicalValue(op, l, r, row, fns);
      }
    } else {
      if l == BoolLit(true) || r == BoolLit(true) {
        assert e == BoolLit(true);
      } else if l == BoolLit(false) {
        assert e == r;
      } else if r == BoolLit(false) {
        assert e == l;
      } else {
        LogicalValue(op, l, r, row, fns);
      }
    }
  }

  lemma LogicalValue(op: LogicalOp, l: Expr, r: Expr, row: Row, fns: Functions)
    ensures Eval(Logical(op, l, r), row, fns) == Connect(op, Eval(l, row, fns), Eval(r, row, fns))
  {
    hide Connect;
  }

  lemma BoolValue(b: bool, row: Row, fns: Functions)
    ensures Eval(BoolLit(b), row, fns) == Bool(b)
  {
  }

  /** Rewriting keeps an expression's value on every row it is well typed on, NULLs included. */
  lemma {:induction false} RewriteKeepsValue(e: Expr, row: Row, fns: Functions)
    requires WellTyped(e, row, fns)
    ensures Eval(RewriteExpression(e, fns), row, fns) == Eval(e, row, fns)
  {
    hide SimplifyArith, SimplifyLogical, Arithmetic, Connect, CompareWith, Numeric, Truth, MeetsFloat;
    if IsFoldable(e) {
      FoldableIsConstant(e, [], row, fns, fns);
      LiteralEval(Eval(e, [], fns), row, fns);
    } else {
      match e
      case Arith(op, l, r) =>
        RewriteKeepsValue(l, row, fns);
        RewriteKeepsValue(r, row, fns);
        ArithKept(op, RewriteExpression(l, fns), RewriteExpression(r, fns), row, fns);
      case Logical(op, l, r) =>
        RewriteKeepsValue(l, row, fns);
        RewriteKeepsValue(r, row, fns);
        LogicalKept(op, RewriteExpression(l, fns), RewriteExpression(r, fns), row, fns);
      case Compare(op, l, r) =>
        RewriteKeepsValue(l, row, fns);
        RewriteKeepsValue(r, row, fns);
      case Not(x) => RewriteKeepsValue(x, row, fns);
      case _ =>
    }
  }

  /** So a rewritten WHERE clause accepts the same rows. */
  lemma RewriteKeepsFilter(e: Expr, rows: seq<Row>, fns: Functions)
    requires forall i :: 0 <= i < |rows| ==> WellTyped(e, rows[i], fns)
    ensures Filter(RewriteExpression(e, fns), rows, fns) == Filter(e, rows, fns)
  {
    hide Eval, RewriteExpression, WellTyped;
    if rows != [] {
      RewriteKeepsFilter(e, rows[1..], fns);
      RewriteKeepsValue(e, rows[0], fns);
    }
  }

  // ----- Where it does not

  /** Dropping an identity constant next to a column changes the value exactly if that is
      no number, or an integer next to a float constant. */
  lemma IdentityKeptIff(op: ArithmeticOp, name: string, index: int, constant: Expr, row: Row, fns: Functions)
    requires IsIdentity(op, constant)
    ensures var c := Column("", name, index); var v := Eval(c, row, fns);
      && RewriteExpression(Arith(op, c, constant), fns) == c
      && (v == Eval(Arith(op, c, constant), row, fns) <==> Numeric(v) && MeetsFloat(constant, v))
  {
    hide Arithmetic;
    var c := Column("", name, index);
    assert RewriteExpression(constant, fns) == constant && RewriteExpression(c, fns) == c;
    IdentityRight(op, Eval(c, row, fns), constant, row, fns);
    ArithValue(op, c, constant, row, fns);
  }

  /** The difference shows: with 5 in an integer column, (c + 0.0) / 2 is 2.5, but 2 once
      rewritten. */
  lemma DroppedFloatShows(fns: Functions)
    ensures var c := Column("", "c", 0); var e := Arith(Div, Arith(Add, c, FloatLit(0.0)), IntLit(2));
      && Eval(e, [Int(5)], fns) == Double(2.5)
      && Eval(RewriteExpression(e, fns), [Int(5)], fns) == Int(2)
  {
    var c := Column("", "c", 0);
    var sum := Arith(Add, c, FloatLit(0.0));
    assert RewriteExpression(sum, fns) == c;
    assert RewriteExpression(Arith(Div, sum, IntLit(2)), fns) == Arith(Div, c, IntLit(2));
    assert Eval(sum, [Int(5)], fns) == Double(5.0);
  }


  // ----- What is folded

  /** Constants are folded to the literal of their value. */
  lemma FoldsConstants(e: Expr, row: Row, fns: Functions)
    requires IsFoldable(e)
    ensures RewriteExpression(e, fns).IsLiteral() && Eval(RewriteExpression(e, fns), row, fns) == Eval(e, row, fns)
  {
    hide Eval;
    FoldableIsConstant(e, row, [], fns, fns);
    LiteralEval(Eval(e, [], fns), row, fns);
  }

  /** Next to a column, the constant that decides AND or OR is what remains, and the other one is
      dropped. */
  lemma AbsorbsConstants(op: LogicalOp, index: int, fns: Functions)
    ensures var c, decider, neutral := Column("", "c", index), BoolLit(op == Or), BoolLit(op == And);
      && RewriteExpression(Logical(op, c, decider), fns) == RewriteExpression(Logical(op, decider, c), fns) == decider
      && RewriteExpression(Logical(op, c, neutral), fns) == RewriteExpression(Logical(op, neutral, c), fns) == c
  {
    BoolValue(true, [], fns);
    BoolValue(false, [], fns);
    hide Eval;
    var c := Column("", "c", index);
    assert RewriteExpression(c, fns) == c;
    assert RewriteExpression(BoolLit(true), fns) == BoolLit(true) && RewriteExpression(BoolLit(false), fns) == BoolLit(false);
  }

  /** One pass need not fold everything: NOT (c AND FALSE) becomes NOT FALSE. */
  lemma OnePassLeavesConstants(index: int, fns: Functions)
    ensures var e := Not(Logical(And, Column("", "c", index), BoolLit(false)));
      RewriteExpression(e, fns) == Not(BoolLit(false)) && RewriteExpression(RewriteExpression(e, fns), fns) == BoolLit(true)
  {
    AbsorbsConstants(And, index, fns);
    assert Eval(Not(BoolLit(false)), [], fns) == Bool(true);
  }
}
