/** Expressions typed over the columns' types: on every row of those types they are well typed,
    so a WHERE clause or projection can be checked once, before it is rewritten. */
module RewriteTyping {
  import opened Values
  import opened SqlAst
  import opened Evaluator
  import opened Rewrite

  /** The type of an expression's value, NULL aside; `TNull` is always NULL, `TAny` is not known. */
  datatype Type = TInt | TFloat | TBool | TText | TNull | TAny

  predicate HasType(v: Value, t: Type) {
    v.Null? || match t
      case TInt => v.Int?
      case TFloat => v.Double?
      case TBool => v.Bool?
      case TText => v.Text?
      case TNull => false
      case TAny => true
  }

  /** What scalar functions and casts return. */
  datatype Signature = Signature(call: string -> Type, cast: DataType -> Type)

  ghost predicate Respects(fns: Functions, sig: Signature) {
    && (forall name, args :: HasType(fns.call(name, args), sig.call(name)))
    && forall v, t :: HasType(fns.cast(v, t), sig.cast(t))
  }

  function ColumnType(kinds: seq<Kind>, index: int): Type {
    if 0 <= index < |kinds| then
      match kinds[index]
      case KInt => TInt
      case KDouble => TFloat
      case KBool => TBool
      case KText => TText
      case KNull => TNull
    else TNull
  }

  ghost predicate Conforms(row: Row, kinds: seq<Kind>) {
    |row| == |kinds| && forall c :: 0 <= c < |kinds| ==> OfKind(kinds[c], row[c])
  }

  function ArithType(l: Type, r: Type): Type {
    if l == TAny || r == TAny then TAny
    else if l == TInt && r == TInt then TInt
    else if (l == TInt || l == TFloat) && (r == TInt || r == TFloat) then TFloat
    else TNull
  }

  /** The type of either of two values. */
  function Join(a: Type, b: Type): Type {
    if a == TNull then b else if b == TNull || a == b then a else TAny
  }

  function TypeOf(e: Expr, kinds: seq<Kind>, sig: Signature): Type
    decreases e
  {
    match e
    case IntLit(_) => TInt
    case FloatLit(_) => TFloat
    case StringLit(_) => TText
    case BoolLit(_) => TBool
    case NullLit => TNull
    case Column(_, _, index) => ColumnType(kinds, index)
    case Arith(_, l, r) => ArithType(TypeOf(l, kinds, sig), TypeOf(r, kinds, sig))
    case Compare(_, _, _) => TBool
    case Logical(_, _, _) => TBool
    case Not(_) => TBool
    case IsNull(_, _) => TBool
    case Between(_, _, _, _) => TBool
    case Like(_, _, _) => TBool
    case In(_, _, _) => TBool
    case Call(name, _) => sig.call(name)
    case Cast(_, t) => sig.cast(t)
    case Case(branches, orElse) => Join(BranchesType(branches, kinds, sig), ElseType(orElse, kinds, sig))
    case Aggregate(_, _, _, _, _) => TNull
  }

  function BranchesType(bs: seq<Branch>, kinds: seq<Kind>, sig: Signature): Type
    decreases bs
  {
    if bs == [] then TNull else Join(BranchType(bs[0], kinds, sig), BranchesType(bs[1..], kinds, sig))
  }

  function BranchType(b: Branch, kinds: seq<Kind>, sig: Signature): Type
    decreases b
  {
    TypeOf(b.then_, kinds, sig)
  }

  function ElseType(orElse: Option<Expr>, kinds: seq<Kind>, sig: Signature): Type
    decreases orElse
  {
    match orElse
    case None => TNull
    case Some(x) => TypeOf(x, kinds, sig)
  }

  lemma JoinHolds(v: Value, a: Type, b: Type)
    requires HasType(v, a) || HasType(v, b)
    ensures HasType(v, Join(a, b))
  {
  }

  lemma ArithHolds(op: ArithmeticOp, l: Value, r: Value, a: Type, b: Type)
    requires HasType(l, a) && HasType(r, b)
    ensures HasType(Arithmetic(op, l, r), ArithType(a, b))
  {
  }

  lemma OperatorsAreTruth(op: ComparisonOp, lop: LogicalOp, l: Value, r: Value, v: Value, p: Value, items: seq<Value>, negated: bool)
    ensures HasType(CompareWith(op, l, r), TBool) && HasType(Connect(lop, l, r), TBool) && HasType(Negated(l), TBool)
    ensures HasType(InRange(v, l, r, negated), TBool) && HasType(LikeWith(v, p, negated), TBool) && HasType(AmongItems(v, items, negated), TBool)
  {
    hide CompareValues;
  }

  lemma ColumnHolds(kinds: seq<Kind>, row: Row, index: int)
    requires Conforms(row, kinds)
    ensures HasType(if 0 <= index < |row| then row[index] else Null, ColumnType(kinds, index))
  {
    if 0 <= index < |row| {
      assert OfKind(kinds[index], row[index]);
    }
  }

  /** On a row of the columns' types an expression's value has the expression's type. */
  lemma {:induction false} TypeSound(e: Expr, kinds: seq<Kind>, sig: Signature, row: Row, fns: Functions)
    requires Conforms(row, kinds) && Respects(fns, sig)
    ensures HasType(Eval(e, row, fns), TypeOf(e, kinds, sig))
    decreases e, 1
  {
    hide HasType, ArithType, Join, Arithmetic, CompareWith, Connect, Negated, InRange, LikeWith, AmongItems, Conforms, ColumnType;
    match e
    case Arith(op, l, r) =>
      TypeSound(l, kinds, sig, row, fns);
      TypeSound(r, kinds, sig, row, fns);
      ArithHolds(op, Eval(l, row, fns), Eval(r, row, fns), TypeOf(l, kinds, sig), TypeOf(r, kinds, sig));
    case Case(branches, orElse) =>
      CaseSound(branches, orElse, kinds, sig, row, fns);
    case Column(_, _, index) => ColumnHolds(kinds, row, index);
    case _ => OthersSound(e, kinds, sig, row, fns);
  }

  lemma OthersSound(e: Expr, kinds: seq<Kind>, sig: Signature, row: Row, fns: Functions)
    requires Respects(fns, sig) && !e.Arith? && !e.Case? && !e.Column?
    ensures HasType(Eval(e, row, fns), TypeOf(e, kinds, sig))
  {
    hide Arithmetic, CompareWith, Connect, Negated, InRange, LikeWith, AmongItems;
    match e
    case Compare(op, l, r) => OperatorsAreTruth(op, And, Eval(l, row, fns), Eval(r, row, fns), Null, Null, [], false);
    case Logical(op, l, r) => OperatorsAreTruth(Eq, op, Eval(l, row, fns), Eval(r, row, fns), Null, Null, [], false);
    case Not(x) => OperatorsAreTruth(Eq, And, Eval(x, row, fns), Null, Null, Null, [], false);
    case Between(v, lo, hi, n) => OperatorsAreTruth(Eq, And, Eval(lo, row, fns), Eval(hi, row, fns), Eval(v, row, fns), Null, [], n);
    case Like(v, p, n) => OperatorsAreTruth(Eq, And, Null, Null, Eval(v, row, fns), Eval(p, row, fns), [], n);
    case In(v, items, n) => OperatorsAreTruth(Eq, And, Null, Null, Eval(v, row, fns), Null, EvalAll(items, row, fns), n);
    case _ =>
  }

  lemma {:induction false} CaseSound(branches: seq<Branch>, orElse: Option<Expr>, kinds: seq<Kind>, sig: Signature, row: Row, fns: Functions)
    requires Conforms(row, kinds) && Respects(fns, sig)
    ensures HasType(Eval(Case(branches, orElse), row, fns), TypeOf(Case(branches, orElse), kinds, sig))
    decreases Case(branches, orElse), 0
  {
    hide HasType, Join, Conforms;
    var v := Eval(Case(branches, orElse), row, fns);
    var bt, et := BranchesType(branches, kinds, sig), ElseType(orElse, kinds, sig);
    BranchesSound(Case(branches, orElse), branches, kinds, sig, row, fns);
    CaseValue(branches, orElse, row, fns);
    if EvalBranches(branches, row, fns).None? {
      if orElse.Some? {
        TypeSound(orElse.value, kinds, sig, row, fns);
      } else {
        NullHasType(et);
      }
    }
    JoinHolds(v, bt, et);
  }

  lemma FirstBranch(bs: seq<Branch>, row: Row, fns: Functions)
    requires bs != []
    ensures EvalBranches(bs, row, fns) == Some(Eval(bs[0].then_, row, fns)) || EvalBranches(bs, row, fns) == EvalBranches(bs[1..], row, fns)
  {
  }

  lemma CaseValue(branches: seq<Branch>, orElse: Option<Expr>, row: Row, fns: Functions)
    ensures Eval(Case(branches, orElse), row, fns)
      == if EvalBranches(branches, row, fns).Some? then EvalBranches(branches, row, fns).value else EvalElse(orElse, row, fns)
    ensures EvalElse(orElse, row, fns) == if orElse.Some? then Eval(orElse.value, row, fns) else Null
  {
    hide EvalBranches;
  }

  lemma NullHasType(t: Type)
    ensures HasType(Null, t)
  {
  }

  lemma {:induction false} BranchesSound(whole: Expr, bs: seq<Branch>, kinds: seq<Kind>, sig: Signature, row: Row, fns: Functions)
    requires Conforms(row, kinds) && Respects(fns, sig)
    requires whole.Case? && |bs| <= |whole.branches| && bs == whole.branches[|whole.branches| - |bs|..]
    ensures EvalBranches(bs, row, fns).Some? ==> HasType(EvalBranches(bs, row, fns).value, BranchesType(bs, kinds, sig))
    decreases whole, 0, |bs|
  {
    hide HasType, Join, Conforms;
    if bs != [] {
      assert bs[0] in whole.branches;
      assert bs[1..] == whole.branches[|whole.branches| - |bs[1..]|..];
      BranchesSound(whole, bs[1..], kinds, sig, row, fns);
      TypeSound(bs[0].then_, kinds, sig, row, fns);
      var v := EvalBranches(bs, row, fns);
      FirstBranch(bs, row, fns);
      assert BranchType(bs[0], kinds, sig) == TypeOf(bs[0].then_, kinds, sig);
      if v.Some? {
        JoinHolds(v.value, BranchType(bs[0], kinds, sig), BranchesType(bs[1..], kinds, sig));
      }
    }
  }

  // ----- What the source's type checking and its use of float constants must ensure

  predicate Number(t: Type) {
    t == TInt || t == TFloat || t == TNull
  }

  /** A constant of float type stands next to no integer. */
  predicate FloatApart(constant: Expr, other: Expr, kinds: seq<Kind>, sig: Signature) {
    IsFoldable(constant) && TypeOf(constant, kinds, sig) == TFloat ==> TypeOf(other, kinds, sig) != TInt
  }

  /** Arithmetic of numbers, logic of truth values, float constants next to floats only. */
  predicate StaticallyTyped(e: Expr, kinds: seq<Kind>, sig: Signature) {
    match e
    case Arith(_, l, r) =>
      && StaticallyTyped(l, kinds, sig) && StaticallyTyped(r, kinds, sig)
      && Number(TypeOf(l, kinds, sig)) && Number(TypeOf(r, kinds, sig))
      && FloatApart(l, r, kinds, sig) && FloatApart(r, l, kinds, sig)
    case Logical(_, l, r) =>
      && StaticallyTyped(l, kinds, sig) && StaticallyTyped(r, kinds, sig)
      && (TypeOf(l, kinds, sig) == TBool || TypeOf(l, kinds, sig) == TNull)
      && (TypeOf(r, kinds, sig) == TBool || TypeOf(r, kinds, sig) == TNull)
    case Compare(_, l, r) => StaticallyTyped(l, kinds, sig) && StaticallyTyped(r, kinds, sig)
    case Not(x) => StaticallyTyped(x, kinds, sig)
    case _ => true
  }

  /** A numeric expression that is not constant does not become a constant. */
  lemma {:induction false} StaysVariable(e: Expr, kinds: seq<Kind>, sig: Signature, fns: Functions)
    requires StaticallyTyped(e, kinds, sig) && Number(TypeOf(e, kinds, sig)) && !IsFoldable(e)
    ensures !RewriteExpression(e, fns).IsLiteral()
  {
    hide IsNumber, FloatApart;
    match e
    case Arith(op, l, r) =>
      if !IsFoldable(l) {
        StaysVariable(l, kinds, sig, fns);
      }
      if !IsFoldable(r) {
        StaysVariable(r, kinds, sig, fns);
      }
      NumbersAreLiterals(RewriteExpression(l, fns));
      NumbersAreLiterals(RewriteExpression(r, fns));
    case _ =>
  }

  lemma NumbersAreLiterals(e: Expr)
    ensures forall n: int :: IsNumber(e, n) ==> e.IsLiteral()
  {
  }

  /** A side that becomes a float constant was one, so it meets no integer. */
  lemma FloatsMeet(constant: Expr, other: Expr, kinds: seq<Kind>, sig: Signature, row: Row, fns: Functions)
    requires Conforms(row, kinds) && Respects(fns, sig)
    requires StaticallyTyped(constant, kinds, sig) && Number(TypeOf(constant, kinds, sig)) && FloatApart(constant, other, kinds, sig)
    requires Number(TypeOf(other, kinds, sig))
    ensures MeetsFloat(RewriteExpression(constant, fns), Eval(other, row, fns))
  {
    hide Eval, TypeOf, Conforms, Respects;
    TypeSound(other, kinds, sig, row, fns);
    if IsFoldable(constant) {
      FoldableIsConstant(constant, [], row, fns, fns);
      TypeSound(constant, kinds, sig, row, fns);
    } else {
      StaysVariable(constant, kinds, sig, fns);
    }
  }

  /** What is statically typed is well typed on every row of the columns' types. */
  lemma {:induction false} StaticIsWellTyped(e: Expr, kinds: seq<Kind>, sig: Signature, row: Row, fns: Functions)
    requires StaticallyTyped(e, kinds, sig) && Conforms(row, kinds) && Respects(fns, sig)
    ensures WellTyped(e, row, fns)
  {
    hide Eval, TypeOf, Conforms, Respects, RewriteExpression, FloatApart, MeetsFloat;
    match e
    case Arith(_, l, r) =>
      StaticIsWellTyped(l, kinds, sig, row, fns);
      StaticIsWellTyped(r, kinds, sig, row, fns);
      TypeSound(l, kinds, sig, row, fns);
      TypeSound(r, kinds, sig, row, fns);
      FloatsMeet(l, r, kinds, sig, row, fns);
      FloatsMeet(r, l, kinds, sig, row, fns);
    case Logical(_, l, r) =>
      StaticIsWellTyped(l, kinds, sig, row, fns);
      StaticIsWellTyped(r, kinds, sig, row, fns);
      TypeSound(l, kinds, sig, row, fns);
      TypeSound(r, kinds, sig, row, fns);
    case Compare(_, l, r) =>
      StaticIsWellTyped(l, kinds, sig, row, fns);
      StaticIsWellTyped(r, kinds, sig, row, fns);
    case Not(x) => StaticIsWellTyped(x, kinds, sig, row, fns);
    case _ =>
  }

  /** A statically typed expression, rewritten once, has the same value on every row. */
  lemma RewriteKeepsTyped(e: Expr, kinds: seq<Kind>, sig: Signature, row: Row, fns: Functions)
    requires StaticallyTyped(e, kinds, sig) && Conforms(row, kinds) && Respects(fns, sig)
    ensures Eval(RewriteExpression(e, fns), row, fns) == Eval(e, row, fns)
  {
    hide *;
    StaticIsWellTyped(e, kinds, sig, row, fns);
    RewriteKeepsValue(e, row, fns);
  }

  /** So a statically typed WHERE clause keeps the same rows of a table. */
  lemma RewriteKeepsQuery(e: Expr, kinds: seq<Kind>, sig: Signature, rows: seq<Row>, fns: Functions)
    requires StaticallyTyped(e, kinds, sig) && Respects(fns, sig) && forall i :: 0 <= i < |rows| ==> Conforms(rows[i], kinds)
    ensures Filter(RewriteExpression(e, fns), rows, fns) == Filter(e, rows, fns)
  {
    hide *;
    forall i | 0 <= i < |rows|
      ensures WellTyped(e, rows[i], fns)
    {
      StaticIsWellTyped(e, kinds, sig, rows[i], fns);
    }
    RewriteKeepsFilter(e, rows, fns);
  }
}
