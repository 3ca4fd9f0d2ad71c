/** Expressions of the SQL dialect. */
module SqlAst {
  import opened Values

  datatype DataType = IntType | BoolType | TextType | VarcharType | FloatType | DateType | TimestampType

  datatype ComparisonOp = Eq | Neq | Lt | Leq | Gt | Geq

  datatype ArithmeticOp = Add | Sub | Mul | Div

  datatype LogicalOp = And | Or

  datatype Branch = Branch(cond: Expr, then_: Expr)

  /** `index` is a column's position in the row, -1 until the name is bound. */
  datatype Expr =
    | IntLit(i: int)
    | FloatLit(d: real)
    | StringLit(t: string)
    | BoolLit(b: bool)
    | NullLit
    | Column(table: string, column: string, index: int)
    | Compare(cop: ComparisonOp, left: Expr, right: Expr)
    | Arith(aop: ArithmeticOp, left: Expr, right: Expr)
    | Logical(lop: LogicalOp, left: Expr, right: Expr)
    | Not(operand: Expr)
    | IsNull(operand: Expr, negated: bool)
    | Between(value: Expr, lo: Expr, hi: Expr, negated: bool)
    | Like(value: Expr, pattern: Expr, negated: bool)
    | In(value: Expr, items: seq<Expr>, negated: bool)
    | Call(name: string, args: seq<Expr>)
    | Cast(arg: Expr, target: DataType)
    | Case(branches: seq<Branch>, orElse: Option<Expr>)
    | Aggregate(name: string, star: bool, distinct: bool, table: string, column: string)
  {
    predicate IsLiteral() {
      IntLit? || FloatLit? || StringLit? || BoolLit? || NullLit?
    }
  }

  const INT64_MAX := 0x7FFF_FFFF_FFFF_FFFF

  predicate IsInt64(i: int) {
    -INT64_MAX - 1 <= i <= INT64_MAX
  }
}
