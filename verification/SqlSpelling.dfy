/** Writing expressions with parentheses where the grammar needs them, and wherever else one
    likes: the tokens of every such spelling. */
module SqlSpelling {
  import opened Values
  import opened SqlAst
  import opened SqlLexer
  import opened SqlParser
  import opened SqlTokens

  /** How tightly an expression binds: OR least, then AND, NOT, comparisons, sums and products. */
  function Level(e: Expr): (k: nat)
    ensures k <= 6
  {
    match e
    case Logical(Or, _, _) => 0
    case Logical(And, _, _) => 1
    case Not(_) => 2
    case Compare(_, _, _) => 3
    case IsNull(_, _) => 3
    case Between(_, _, _, _) => 3
    case Like(_, _, _) => 3
    case In(_, _, _) => 3
    case Arith(op, _, _) => if op == Add || op == Sub then 4 else 5
    case _ => 6
  }

  /** Where parentheses are written although they could be left out. */
  type Policy = (Expr, nat) -> bool

  /** An expression where one of at least level k is wanted. */
  function Spell(e: Expr, k: nat, par: Policy): Tokens
    decreases e, 1
  {
    if Level(e) < k || par(e, k) then [LP] + (Bare(e, par) + [RP]) else Bare(e, par)
  }

  /** The same without parentheses around it. Sums, products, AND and OR lean to the left: only
      the right operand must bind more tightly. */
  function Bare(e: Expr, par: Policy): Tokens
    decreases e, 0
  {
    match e
    case Compare(op, l, r) => Spell(l, 4, par) + ([ComparisonToken(op)] + Spell(r, 4, par))
    case Arith(op, l, r) => Spell(l, Level(e), par) + ([ArithmeticToken(op)] + Spell(r, Level(e) + 1, par))
    case Logical(op, l, r) => Spell(l, Level(e), par) + ([LogicalToken(op)] + Spell(r, Level(e) + 1, par))
    case Not(x) => [Token(NOT, "NOT")] + Spell(x, 2, par)
    case IsNull(x, negated) => Spell(x, 4, par) + ([Token(IS, "IS")] + NotTokens(negated) + [Token(NULL_LITERAL, "NULL")])
    case Between(v, lo, hi, negated) =>
      Spell(v, 4, par) + (NotTokens(negated) + ([Token(BETWEEN, "BETWEEN")] + (Spell(lo, 4, par) + ([Token(AND, "AND")] + Spell(hi, 4, par)))))
    case Like(v, p, negated) => Spell(v, 4, par) + (NotTokens(negated) + ([Token(LIKE, "LIKE")] + Spell(p, 4, par)))
    case In(v, items, negated) => Spell(v, 4, par) + (NotTokens(negated) + ([Token(IN, "IN"), LP] + (ListTokens(items) + [RP])))
    case Cast(x, t) => [Token(IDENTIFIER, "CAST"), LP] + (Spell(x, 0, par) + [Token(AS, "AS"), TypeToken(t), RP])
    case Call(name, args) => [Token(IDENTIFIER, name), LP] + (SpellList(args, par) + [RP])
    case Case(branches, orElse) =>
      [Token(CASE, "CASE")] + (SpellBranches(branches, par) + (SpellElse(orElse, par) + [Token(END, "END")]))
    case _ => TokensOf(e)
  }

  function SpellList(es: seq<Expr>, par: Policy): Tokens
    decreases es
  {
    if es == [] then []
    else if |es| == 1 then Spell(es[0], 0, par)
    else Spell(es[0], 0, par) + ([Token(COMMA, ",")] + SpellList(es[1..], par))
  }

  function SpellBranches(bs: seq<Branch>, par: Policy): Tokens
    decreases bs
  {
    if bs == [] then [] else SpellBranch(bs[0], par) + SpellBranches(bs[1..], par)
  }

  function SpellBranch(b: Branch, par: Policy): Tokens
    decreases b
  {
    [Token(WHERE, "WHEN")] + (Spell(b.cond, 0, par) + ([Token(THEN, "THEN")] + Spell(b.then_, 4, par)))
  }

  function SpellElse(e: Option<Expr>, par: Policy): Tokens
    decreases e
  {
    match e
    case None => []
    case Some(x) => [Token(ELSE, "ELSE")] + Spell(x, 4, par)
  }

  /** Only the parentheses that are needed. */
  function Sparing(): Policy {
    (_, _) => false
  }

  // ----- The printer's spelling has parentheses around every compound

  function Generous(): Policy {
    (e, _) => IsCompound(e)
  }

  /** The printer's tokens are that spelling, at every level. */
  lemma {:induction false} PrintedIsGenerous(e: Expr, k: nat)
    requires k <= 6
    ensures TokensOf(e) == Spell(e, k, Generous())
    decreases e, 1
  {
    hide TokensOf, Bare, Inner;
    PrintedBare(e);
    Grouping(e);
    if IsCompound(e) {
      CompoundTokens(e);
    }
  }

  lemma Grouping(e: Expr)
    ensures Level(e) < 6 <==> IsCompound(e)
  {
  }

  lemma {:induction false} PrintedBare(e: Expr)
    ensures Bare(e, Generous()) == if IsCompound(e) then Inner(e) else TokensOf(e)
    decreases e, 0
  {
    hide Spell;
    match e
    case Compare(_, l, r) => PrintedIsGenerous(l, 4); PrintedIsGenerous(r, 4);
    case Arith(_, l, r) => PrintedOperands(e, l, r);
    case Logical(_, l, r) => PrintedOperands(e, l, r);
    case Not(x) => PrintedIsGenerous(x, 2);
    case IsNull(x, _) => PrintedIsGenerous(x, 4);
    case Between(v, lo, hi, _) => PrintedIsGenerous(v, 4); PrintedIsGenerous(lo, 4); PrintedIsGenerous(hi, 4);
    case Like(v, p, _) => PrintedIsGenerous(v, 4); PrintedIsGenerous(p, 4);
    case In(v, _, _) => PrintedIsGenerous(v, 4);
    case Cast(x, _) => PrintedIsGenerous(x, 0);
    case Call(_, args) => PrintedList(args);
    case Case(branches, orElse) => PrintedBranches(branches); PrintedElse(orElse);
    case _ =>
  }

  lemma {:induction false} PrintedOperands(e: Expr, l: Expr, r: Expr)
    requires l < e && r < e && Level(e) <= 5
    ensures Spell(l, Level(e), Generous()) == TokensOf(l) && Spell(r, Level(e) + 1, Generous()) == TokensOf(r)
    decreases e, -1
  {
    PrintedIsGenerous(l, Level(e));
    PrintedIsGenerous(r, Level(e) + 1);
  }

  lemma {:induction false} PrintedList(es: seq<Expr>)
    ensures SpellList(es, Generous()) == ListTokens(es)
    decreases es
  {
    hide Spell, TokensOf;
    if es != [] {
      PrintedIsGenerous(es[0], 0);
      PrintedList(es[1..]);
    }
  }

  lemma {:induction false} PrintedBranches(bs: seq<Branch>)
    ensures SpellBranches(bs, Generous()) == BranchesTokens(bs)
    decreases bs
  {
    hide SpellBranch, BranchTokens;
    if bs != [] {
      PrintedBranch(bs[0]);
      PrintedBranches(bs[1..]);
    }
  }

  lemma {:induction false} PrintedBranch(b: Branch)
    ensures SpellBranch(b, Generous()) == BranchTokens(b)
    decreases b
  {
    hide Spell, TokensOf;
    PrintedIsGenerous(b.cond, 0);
    PrintedIsGenerous(b.then_, 4);
  }

  lemma {:induction false} PrintedElse(orElse: Option<Expr>)
    ensures SpellElse(orElse, Generous()) == ElseTokens(orElse)
    decreases orElse
  {
    hide Spell, TokensOf;
    if orElse.Some? {
      PrintedIsGenerous(orElse.value, 4);
    }
  }
}
