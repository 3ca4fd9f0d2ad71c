/** What expressions mean: the laws of comparison, arithmetic and three-valued logic, stated on
    the values of an expression and its parts alone. */
module ExpressionLaws {
  import opened Values
  import opened SqlAst
  import opened Evaluator

  /** Numbers compare with numbers, and booleans and texts with their own type. */
  predicate TypesCompare(a: Value, b: Value) {
    (a.IsNumeric() && b.IsNumeric()) || (a.Bool? && b.Bool?) || (a.Text? && b.Text?)
  }

  /** The relation an operator asks for between two numbers. */
  predicate Relates(op: ComparisonOp, x: real, y: real) {
    match op
    case Eq => x == y
    case Neq => x != y
    case Lt => x < y
    case Leq => x <= y
    case Gt => y < x
    case Geq => y <= x
  }

  /** The same in the order of texts and of booleans. */
  predicate RelatesInOrder(op: ComparisonOp, a: Value, b: Value) {
    match op
    case Eq => a == b
    case Neq => a != b
    case Lt => ValueLess(a, b)
    case Leq => a == b || ValueLess(a, b)
    case Gt => ValueLess(b, a)
    case Geq => a == b || ValueLess(b, a)
  }

  /** A comparison is unknown exactly if its operands do not compare, and otherwise says whether
      the relation holds. */
  lemma ComparisonLaw(op: ComparisonOp, l: Expr, r: Expr, row: Row, fns: Functions)
    ensures var a, b, out := Eval(l, row, fns), Eval(r, row, fns), Eval(Compare(op, l, r), row, fns);
      && (out == Null <==> !TypesCompare(a, b))
      && (a.IsNumeric() && b.IsNumeric() ==> out == Bool(Relates(op, a.AsReal(), b.AsReal())))
      && ((a.Bool? && b.Bool?) || (a.Text? && b.Text?) ==> out == Bool(RelatesInOrder(op, a, b)))
  {
    var a, b := Eval(l, row, fns), Eval(r, row, fns);
    assert Eval(Compare(op, l, r), row, fns) == CompareWith(op, a, b);
    hide CompareValues, ValueLess, Eval;
    ComparisonOrder(a, b);
    if a.IsNumeric() && b.IsNumeric() {
      StorageOrder(a, b);
      StorageOrder(b, a);
    }
  }

  /** BETWEEN: from the lower to the upper bound, both included. */
  lemma BetweenLaw(v: Expr, lo: Expr, hi: Expr, negated: bool, row: Row, fns: Functions)
    ensures var x, a, b, out := Eval(v, row, fns), Eval(lo, row, fns), Eval(hi, row, fns), Eval(Between(v, lo, hi, negated), row, fns);
      && (out == Null <==> !TypesCompare(x, a) || !TypesCompare(x, b))
      && (x.IsNumeric() && a.IsNumeric() && b.IsNumeric() ==> out == Bool((a.AsReal() <= x.AsReal() <= b.AsReal()) != negated))
      && ((x.Bool? && a.Bool? && b.Bool?) || (x.Text? && a.Text? && b.Text?) ==>
            out == Bool((RelatesInOrder(Leq, a, x) && RelatesInOrder(Leq, x, b)) != negated))
  {
    var x, a, b := Eval(v, row, fns), Eval(lo, row, fns), Eval(hi, row, fns);
    assert Eval(Between(v, lo, hi, negated), row, fns) == InRange(x, a, b, negated);
    hide CompareValues, ValueLess, Eval;
    ComparisonOrder(x, a);
    ComparisonOrder(x, b);
    if x.IsNumeric() && a.IsNumeric() && b.IsNumeric() {
      StorageOrder(x, a);
      StorageOrder(b, x);
      StorageOrder(a, x);
    }
  }

  /** Arithmetic: unknown unless both operands are numbers and no division is by zero; an integer
      if both operands are; the sum, difference or product of the two numbers. */
  lemma ArithmeticLaw(op: ArithmeticOp, l: Expr, r: Expr, row: Row, fns: Functions)
    ensures var a, b, out := Eval(l, row, fns), Eval(r, row, fns), Eval(Arith(op, l, r), row, fns);
      && (out == Null <==> !a.IsNumeric() || !b.IsNumeric() || (op == Div && b.AsReal() == 0.0))
      && (out != Null ==> if a.Int? && b.Int? then out.Int? else out.Double?)
      && (out.Int? && op == Add ==> out.i == a.i + b.i) && (out.Double? && op == Add ==> out.d == a.AsReal() + b.AsReal())
      && (out.Int? && op == Sub ==> out.i == a.i - b.i) && (out.Double? && op == Sub ==> out.d == a.AsReal() - b.AsReal())
      && (out.Int? && op == Mul ==> out.i == a.i * b.i) && (out.Double? && op == Mul ==> out.d == a.AsReal() * b.AsReal())
      && (out.Double? && op == Div ==> out.d * b.AsReal() == a.AsReal())
  {
    hide Quotient;
    var a, b := Eval(l, row, fns), Eval(r, row, fns);
    assert Eval(Arith(op, l, r), row, fns) == Arithmetic(op, a, b);
    if op == Div && a.IsNumeric() && b.IsNumeric() {
      var x, y := a.AsReal(), b.AsReal();
      assert y != 0.0 ==> x / y * y == x;
    }
  }

  /** Integer division drops the fraction: what is left over is smaller than the divisor and has
      the sign of the dividend. */
  lemma DivisionLaw(l: Expr, r: Expr, row: Row, fns: Functions)
    requires Eval(l, row, fns).Int? && Eval(r, row, fns).Int? && Eval(r, row, fns) != Int(0)
    ensures var a, b, out := Eval(l, row, fns).i, Eval(r, row, fns).i, Eval(Arith(Div, l, r), row, fns);
      && out.Int?
      && var rem := a - out.i * b;
        Abs(rem) < Abs(b) && (a >= 0 ==> rem >= 0) && (a <= 0 ==> rem <= 0)
  {
    var a, b := Eval(l, row, fns).i, Eval(r, row, fns).i;
    assert Eval(Arith(Div, l, r), row, fns) == Arithmetic(Div, Int(a), Int(b)) == Int(Quotient(a, b));
    QuotientLaw(a, b);
  }

  lemma QuotientLaw(a: int, b: int)
    requires b != 0
    ensures var rem := a - Quotient(a, b) * b;
      Abs(rem) < Abs(b) && (a >= 0 ==> rem >= 0) && (a <= 0 ==> rem <= 0)
  {
    var q: int := Abs(a) / Abs(b);
    Leftover(Abs(a), Abs(b));
    assert Quotient(a, b) == if (a < 0) == (b < 0) then q else -q;
    hide Quotient;
    SignsOut(q, b);
  }

  lemma Leftover(m: nat, n: nat)
    requires n != 0
    ensures 0 <= m - (m / n) * n < n
  {
  }

  lemma SignsOut(x: int, y: int)
    ensures (-x) * y == -(x * y) == x * (-y)
  {
  }

  // ----- Logic

  /** NOT turns TRUE and FALSE round and leaves everything else unknown. */
  lemma NotLaw(x: Expr, row: Row, fns: Functions)
    ensures var out := Eval(Not(x), row, fns);
      && (out == Bool(true) <==> Eval(x, row, fns) == Bool(false))
      && (out == Bool(false) <==> Eval(x, row, fns) == Bool(true))
      && (out == Null || out.Bool?)
  {
  }

  /** AND is FALSE next to a FALSE, TRUE for two TRUEs, and otherwise unknown. */
  lemma AndLaw(l: Expr, r: Expr, row: Row, fns: Functions)
    ensures var a, b, out := Eval(l, row, fns), Eval(r, row, fns), Eval(Logical(And, l, r), row, fns);
      && (out == Bool(false) <==> a == Bool(false) || b == Bool(false))
      && (out == Bool(true) <==> a == Bool(true) && b == Bool(true))
      && (out == Null || out.Bool?)
  {
  }

  /** OR is TRUE next to a TRUE, FALSE for two FALSEs, and otherwise unknown. */
  lemma OrLaw(l: Expr, r: Expr, row: Row, fns: Functions)
    ensures var a, b, out := Eval(l, row, fns), Eval(r, row, fns), Eval(Logical(Or, l, r), row, fns);
      && (out == Bool(true) <==> a == Bool(true) || b == Bool(true))
      && (out == Bool(false) <==> a == Bool(false) && b == Bool(false))
      && (out == Null || out.Bool?)
  {
  }

  lemma NullTestLaw(x: Expr, row: Row, fns: Functions)
    ensures Eval(IsNull(x, false), row, fns) == Bool(Eval(x, row, fns) == Null)
    ensures Eval(IsNull(x, true), row, fns) == Bool(Eval(x, row, fns) != Null)
  {
  }

  /** LIKE on a text without a percent sign decides the meaning of the pattern. */
  lemma LikeLaw(v: Expr, p: Expr, negated: bool, row: Row, fns: Functions)
    ensures var s, t, out := Eval(v, row, fns), Eval(p, row, fns), Eval(Like(v, p, negated), row, fns);
      && (out == Null <==> !s.Text? || !t.Text?)
      && (s.Text? && t.Text? && '%' !in s.t ==> out == Bool(LikeMatch.Like(s.t, t.t) != negated))
  {
    var s, t := Eval(v, row, fns), Eval(p, row, fns);
    assert Eval(Like(v, p, negated), row, fns) == LikeWith(s, t, negated);
    if s.Text? && t.Text? && '%' !in s.t {
      LikeMatch.Decides(s.t, t.t);
    }
  }

  // ----- Lists and branches

  lemma {:induction false} EvalAllAt(es: seq<Expr>, row: Row, fns: Functions)
    ensures |EvalAll(es, row, fns)| == |es|
    ensures forall i :: 0 <= i < |es| ==> EvalAll(es, row, fns)[i] == Eval(es[i], row, fns)
  {
    hide Eval;
    if es != [] {
      EvalAllAt(es[1..], row, fns);
    }
  }

  /** Item i equals the value. */
  ghost predicate FoundAt(v: Expr, items: seq<Expr>, row: Row, fns: Functions, i: int) {
    0 <= i < |items| && Eval(Compare(Eq, v, items[i]), row, fns) == Bool(true)
  }

  ghost predicate NullAt(items: seq<Expr>, row: Row, fns: Functions, i: int) {
    0 <= i < |items| && Eval(items[i], row, fns) == Null
  }

  /** IN: TRUE exactly if some item equals the value; otherwise unknown exactly if the value or
      some item is NULL. NOT IN is its negation. */
  lemma InLaw(v: Expr, items: seq<Expr>, negated: bool, row: Row, fns: Functions)
    ensures var out := Eval(In(v, items, negated), row, fns);
      && (out == Bool(!negated) <==> exists i :: FoundAt(v, items, row, fns, i))
      && (out == Null <==> (Eval(v, row, fns) == Null
                            || (!(exists i :: FoundAt(v, items, row, fns, i)) && exists i :: NullAt(items, row, fns, i))))
      && (out == Null || out.Bool?)
  {
    hide CompareValues;
    var x, vals := Eval(v, row, fns), EvalAll(items, row, fns);
    EvalAllAt(items, row, fns);
    assert Eval(In(v, items, negated), row, fns) == AmongItems(x, vals, negated);
    forall i | 0 <= i < |items|
      ensures FoundAt(v, items, row, fns, i) <==> CompareValues(x, vals[i]) == Some(0)
      ensures NullAt(items, row, fns, i) <==> vals[i] == Null
    {
      assert Eval(Compare(Eq, v, items[i]), row, fns) == CompareWith(Eq, x, vals[i]);
    }
    NullNeverEqual(x);
    assert (exists i :: FoundAt(v, items, row, fns, i)) <==> exists i :: 0 <= i < |vals| && CompareValues(x, vals[i]) == Some(0);
    assert (exists i :: NullAt(items, row, fns, i)) <==> Null in vals;
  }

  lemma NullNeverEqual(x: Value)
    ensures x == Null ==> forall y :: CompareValues(x, y) == None
  {
  }

  /** The first branch whose condition is TRUE gives the value of CASE. */
  lemma CaseLaw(branches: seq<Branch>, orElse: Option<Expr>, i: nat, row: Row, fns: Functions)
    requires i < |branches| && Eval(branches[i].cond, row, fns) == Bool(true)
    requires forall j :: 0 <= j < i ==> Eval(branches[j].cond, row, fns) != Bool(true)
    ensures Eval(Case(branches, orElse), row, fns) == Eval(branches[i].then_, row, fns)
  {
    FirstBranch(branches, i, row, fns);
  }

  lemma {:induction false} FirstBranch(bs: seq<Branch>, i: nat, row: Row, fns: Functions)
    requires i < |bs| && Eval(bs[i].cond, row, fns) == Bool(true)
    requires forall j :: 0 <= j < i ==> Eval(bs[j].cond, row, fns) != Bool(true)
    ensures EvalBranches(bs, row, fns) == Some(Eval(bs[i].then_, row, fns))
  {
    hide Eval;
    if i > 0 {
      FirstBranch(bs[1..], i - 1, row, fns);
      assert EvalBranch(bs[0], row, fns) == None;
    }
  }

  /** Without one it is the value of ELSE, and NULL without ELSE. */
  lemma ElseLaw(branches: seq<Branch>, orElse: Option<Expr>, row: Row, fns: Functions)
    requires forall j :: 0 <= j < |branches| ==> Eval(branches[j].cond, row, fns) != Bool(true)
    ensures Eval(Case(branches, orElse), row, fns) == match orElse case None => Null case Some(x) => Eval(x, row, fns)
  {
    NoBranch(branches, row, fns);
  }

  lemma {:induction false} NoBranch(bs: seq<Branch>, row: Row, fns: Functions)
    requires forall j :: 0 <= j < |bs| ==> Eval(bs[j].cond, row, fns) != Bool(true)
    ensures EvalBranches(bs, row, fns) == None
  {
    hide Eval;
    if bs != [] {
      NoBranch(bs[1..], row, fns);
      assert EvalBranch(bs[0], row, fns) == None;
    }
  }
}
