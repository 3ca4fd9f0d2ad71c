/** Whatever the parser builds from lexed text is an expression the printer's language covers. */
module SqlGrammatical {
  import opened Values
  import opened SqlAst
  import opened SqlLexer
  import opened SqlParser
  import opened SqlPrinter
  import opened SqlTokens

  // ----- What lexed tokens look like

  predicate TokenOk(t: Token) {
    && (t.kind == IDENTIFIER ==> IsName(t.lexeme))
    && (t.kind == INTEGER_LITERAL ==> forall k :: 0 <= k < |t.lexeme| ==> IsDigit(t.lexeme[k]))
  }

  ghost predicate TokensOk(ts: Tokens) {
    forall i :: 0 <= i < |ts| ==> TokenOk(ts[i])
  }

  lemma {:induction false} IdentLengthParts(s: string)
    ensures forall k :: 0 <= k < IdentLength(s) ==> IsIdentPart(s[k])
  {
    hide IsIdentPart;
    if s != "" && IsIdentPart(s[0]) {
      IdentLengthParts(s[1..]);
      assert forall k :: 0 < k < IdentLength(s) ==> s[k] == s[1..][k - 1];
    }
  }

  lemma {:induction false} DigitLengthParts(s: string)
    ensures forall k :: 0 <= k < DigitLength(s) ==> IsDigit(s[k])
  {
    hide IsDigit;
    if s != "" && IsDigit(s[0]) {
      DigitLengthParts(s[1..]);
      assert forall k :: 0 < k < DigitLength(s) ==> s[k] == s[1..][k - 1];
    }
  }

  lemma ScannedOk(s: string)
    requires s != ""
    ensures TokenOk(ScanToken(s).0)
  {
    hide KeywordOf, Upper, DigitLength, IdentLength, ScanQuoted;
    if IsIdentStart(s[0]) {
      IdentLengthParts(s);
      SomeIdent(s);
      var w := s[..IdentLength(s)];
      WordOk(w);
    } else if IsDigit(s[0]) {
      DigitLengthParts(s);
    }
  }

  lemma WordOk(w: string)
    requires w != "" && IsIdentStart(w[0]) && forall k :: 0 <= k < |w| ==> IsIdentPart(w[k])
    ensures TokenOk(WordToken(w))
  {
    hide KeywordOf, Upper;
  }

  lemma SomeIdent(s: string)
    requires s != "" && IsIdentStart(s[0])
    ensures IdentLength(s) > 0
  {
  }

  lemma {:induction false} LexedOk(s: string)
    ensures TokensOk(Lex(s))
    decreases |s|
  {
    hide ScanToken, SkipBlank, TokenOk;
    var t := SkipBlank(s);
    EndOk();
    if t != "" {
      ScannedOk(t);
      LexedOk(ScanToken(t).1);
    }
  }

  lemma EndOk()
    ensures TokenOk(END_TOKEN)
  {
  }

  // ----- What the parser builds from them

  /** Every column still unbound. */
  predicate AllUnbound(e: Expr) {
    match e
    case Column(_, _, index) => index == -1
    case Compare(_, l, r) => AllUnbound(l) && AllUnbound(r)
    case Arith(_, l, r) => AllUnbound(l) && AllUnbound(r)
    case Logical(_, l, r) => AllUnbound(l) && AllUnbound(r)
    case Not(x) => AllUnbound(x)
    case IsNull(x, _) => AllUnbound(x)
    case Between(v, lo, hi, _) => AllUnbound(v) && AllUnbound(lo) && AllUnbound(hi)
    case Like(v, p, _) => AllUnbound(v) && AllUnbound(p)
    case In(v, items, _) => AllUnbound(v) && forall i :: 0 <= i < |items| ==> AllUnbound(items[i])
    case Cast(x, _) => AllUnbound(x)
    case Call(_, args) => forall i :: 0 <= i < |args| ==> AllUnbound(args[i])
    case Case(branches, orElse) =>
      (forall i :: 0 <= i < |branches| ==> AllUnboundIn(branches[i])) && (orElse.Some? ==> AllUnbound(orElse.value))
    case _ => true
  }

  predicate AllUnboundIn(b: Branch) {
    AllUnbound(b.cond) && AllUnbound(b.then_)
  }

  ghost predicate Good(e: Expr) {
    Grammatical(e) && AllUnbound(e)
  }

  ghost predicate GoodParse(p: Parsed<Expr>) {
    p.Done? ==> Good(p.value) && TokensOk(p.rest)
  }

  lemma {:induction false} DigitsAreNatural(s: string)
    requires forall k :: 0 <= k < |s| ==> IsDigit(s[k])
    ensures DigitsValue(s) >= 0
  {
    if s != "" {
      DigitsAreNatural(s[..|s| - 1]);
    }
  }

  lemma LiteralGood(t: Token)
    requires TokenOk(t) && MakeLiteral(t).Some?
    ensures Good(MakeLiteral(t).value) && Good(Negate(MakeLiteral(t).value))
    ensures MakeLiteral(t).value.IsLiteral()
    ensures t.kind == INTEGER_LITERAL || t.kind == FLOAT_LITERAL ==> Negate(MakeLiteral(t).value).IsLiteral()
  {
    hide DigitsValue, DecimalValue;
    if t.kind == INTEGER_LITERAL {
      DigitsAreNatural(t.lexeme);
    }
    NegateGood(MakeLiteral(t).value);
  }

  lemma NegateGood(e: Expr)
    requires Good(e)
    ensures Good(Negate(e))
  {
  }

  lemma UnsignedGood(ts: Tokens)
    requires TokensOk(ts)
    ensures GoodParse(UnsignedLiteral(ts))
  {
    hide Good, MakeLiteral, TokenOk;
    if UnsignedLiteral(ts).Done? {
      LiteralGood(ts[0]);
    }
  }

  lemma ParseLiteralGood(ts: Tokens)
    requires TokensOk(ts)
    ensures GoodParse(ParseLiteral(ts)) && (ParseLiteral(ts).Done? ==> ParseLiteral(ts).value.IsLiteral())
  {
    hide Good, MakeLiteral, TokenOk, Negate;
    if UnsignedLiteral(ts).Done? {
      LiteralGood(ts[0]);
    }
    if Signed(ts) && UnsignedLiteral(ts[1..]).Done? {
      LiteralGood(ts[1]);
    }
  }

  lemma ColumnGood(ts: Tokens)
    requires TokensOk(ts)
    ensures GoodParse(ParseColumn(ts))
  {
    hide IsName;
    if ParseColumn(ts).Done? {
      assert TokenOk(ts[0]);
      assert Second(ts) == DOT ==> TokenOk(ts[2]);
      if Second(ts) == DOT {
        NameNotEmpty(ts[0].lexeme);
      }
    }
  }

  lemma NameNotEmpty(s: string)
    requires IsName(s)
    ensures s != ""
  {
  }

  lemma AggregateGood(ts: Tokens)
    requires TokensOk(ts) && Head(ts) == IDENTIFIER
    ensures GoodParse(ParseAggregate(ts))
  {
    hide TokenOk, AggregateBody, Upper, TokensOk;
    if Second(ts) == LPAREN {
      var us := if Head(ts[2..]) == DISTINCT then ts[3..] else ts[2..];
      SuffixOk(ts, |ts| - |us|);
      AggregateBodyGood(Upper(ts[0].lexeme), Head(ts[2..]) == DISTINCT, us);
    }
  }

  lemma AggregateBodyGood(name: string, distinct: bool, us: Tokens)
    requires TokensOk(us)
    ensures GoodParse(AggregateBody(name, distinct, us))
  {
    hide TokenOk, ParseColumn, TokensOk;
    ColumnGood(us);
    if Head(us) == STAR && Second(us) == RPAREN {
      SuffixOk(us, 2);
    } else if ParseColumn(us).Done? && Head(ParseColumn(us).rest) == RPAREN {
      SuffixOk(ParseColumn(us).rest, 1);
    }
  }

  lemma SuffixOk(ts: Tokens, n: nat)
    requires TokensOk(ts) && n <= |ts|
    ensures TokensOk(ts[n..])
  {
    hide TokenOk;
  }

  lemma {:induction false} UpperTwice(s: string)
    ensures Upper(Upper(s)) == Upper(s)
  {
  }

  lemma UpperName(s: string)
    requires IsName(s)
    ensures IsName(Upper(s)) && Upper(Upper(s)) == Upper(s)
    ensures IsAggregateName(Upper(s)) == IsAggregateName(s)
  {
    hide KeywordOf;
    UpperTwice(s);
  }

  // ----- The induction along the grammar

  lemma {:induction false} OrGood(ts: Tokens)
    requires TokensOk(ts)
    ensures GoodParse(ParseOr(ts))
    decreases |ts|, 10
  {
    hide ParseAnd, OrRest, Good, TokenOk;
    AndGood(ts);
    match ParseAnd(ts)
    case Failed =>
    case Done(e, rest) => OrRestGood(e, rest);
  }

  lemma {:induction false} OrRestGood(left: Expr, ts: Tokens)
    requires TokensOk(ts) && Good(left)
    ensures GoodParse(OrRest(left, ts))
    decreases |ts|, 9
  {
    hide ParseAnd, TokenOk;
    if Head(ts) == OR {
      AndGood(ts[1..]);
      match ParseAnd(ts[1..])
      case Failed =>
      case Done(right, rest) => OrRestGood(Logical(Or, left, right), rest);
    }
  }

  lemma {:induction false} AndGood(ts: Tokens)
    requires TokensOk(ts)
    ensures GoodParse(ParseAnd(ts))
    decreases |ts|, 8
  {
    hide ParseNot, AndRest, Good, TokenOk;
    NotGood(ts);
    match ParseNot(ts)
    case Failed =>
    case Done(e, rest) => AndRestGood(e, rest);
  }

  lemma {:induction false} AndRestGood(left: Expr, ts: Tokens)
    requires TokensOk(ts) && Good(left)
    ensures GoodParse(AndRest(left, ts))
    decreases |ts|, 8
  {
    hide ParseNot, TokenOk;
    if Head(ts) == AND {
      NotGood(ts[1..]);
      match ParseNot(ts[1..])
      case Failed =>
      case Done(right, rest) => AndRestGood(Logical(And, left, right), rest);
    }
  }

  lemma {:induction false} NotGood(ts: Tokens)
    requires TokensOk(ts)
    ensures GoodParse(ParseNot(ts))
    decreases |ts|, 7
  {
    hide ParseComparison, TokenOk;
    if Head(ts) == NOT {
      NotGood(ts[1..]);
    } else {
      ComparisonGood(ts);
    }
  }

  lemma {:induction false} ComparisonGood(ts: Tokens)
    requires TokensOk(ts)
    ensures GoodParse(ParseComparison(ts))
    decreases |ts|, 6
  {
    hide ParseAdditive, ComparisonRest, Good, TokenOk;
    AdditiveGood(ts);
    match ParseAdditive(ts)
    case Failed =>
    case Done(left, rest) => ComparisonRestGood(left, rest);
  }

  lemma {:induction false} ComparisonRestGood(left: Expr, ts: Tokens)
    requires TokensOk(ts) && Good(left)
    ensures GoodParse(ComparisonRest(left, ts))
    decreases |ts|, 7
  {
    hide ComparisonBody, NullTest, NegatedComparison, Good, TokenOk;
    if Head(ts) == IS {
      NullTestGood(left, ts[1..]);
    } else if NegatedComparison(ts) {
      NegatedIsNot(ts);
      ComparisonBodyGood(left, true, ts[1..]);
    } else {
      ComparisonBodyGood(left, false, ts);
    }
  }

  lemma NegatedIsNot(ts: Tokens)
    requires NegatedComparison(ts)
    ensures ts != []
  {
  }

  lemma NullTestGood(left: Expr, ts: Tokens)
    requires TokensOk(ts) && Good(left)
    ensures GoodParse(NullTest(left, ts))
  {
    hide TokenOk;
  }

  lemma {:induction false} ComparisonBodyGood(left: Expr, negated: bool, ts: Tokens)
    requires TokensOk(ts) && Good(left)
    ensures GoodParse(ComparisonBody(left, negated, ts))
    decreases |ts|, 6
  {
    hide ParseAdditive, InTest, BetweenTest, LikeTest, ToComparison, Good, TokenOk;
    if Head(ts) == IN {
      InGood(left, negated, ts[1..]);
    } else if Head(ts) == BETWEEN {
      BetweenGood(left, negated, ts[1..]);
    } else if Head(ts) == LIKE {
      LikeGood(left, negated, ts[1..]);
    } else if ToComparison(Head(ts)).Some? {
      ComparisonIsToken(Head(ts));
      AdditiveGood(ts[1..]);
      match ParseAdditive(ts[1..])
      case Failed =>
      case Done(right, rest) => CompareGood(ToComparison(Head(ts)).value, left, right);
    }
  }

  lemma CompareGood(op: ComparisonOp, l: Expr, r: Expr)
    requires Good(l) && Good(r)
    ensures Good(Compare(op, l, r))
  {
  }

  lemma {:induction false} InGood(left: Expr, negated: bool, ts: Tokens)
    requires TokensOk(ts) && Good(left)
    ensures GoodParse(InTest(left, negated, ts))
  {
    hide ParseItems, TokenOk;
    if Head(ts) == LPAREN && Second(ts) != SELECT {
      ItemsGood([], ts[1..]);
    }
  }

  ghost predicate AllGood(es: seq<Expr>) {
    forall i :: 0 <= i < |es| ==> Good(es[i])
  }

  ghost predicate GoodItems(p: Parsed<seq<Expr>>) {
    p.Done? ==> p.value != [] && AllGood(p.value) && (forall i :: 0 <= i < |p.value| ==> p.value[i].IsLiteral()) && TokensOk(p.rest)
  }

  lemma {:induction false} ItemsGood(items: seq<Expr>, ts: Tokens)
    requires TokensOk(ts) && AllGood(items) && forall i :: 0 <= i < |items| ==> items[i].IsLiteral()
    ensures GoodItems(ParseItems(items, ts))
    decreases |ts|
  {
    hide ParseLiteral, Good, TokenOk;
    ParseLiteralGood(ts);
    match ParseLiteral(ts)
    case Failed =>
    case Done(item, rest) =>
      if Head(rest) == COMMA {
        ItemsGood(items + [item], rest[1..]);
      }
  }

  lemma {:induction false} BetweenGood(left: Expr, negated: bool, ts: Tokens)
    requires TokensOk(ts) && Good(left)
    ensures GoodParse(BetweenTest(left, negated, ts))
    decreases |ts|, 6
  {
    hide ParseAdditive, TokenOk, Good;
    AdditiveGood(ts);
    match ParseAdditive(ts)
    case Failed =>
    case Done(lo, rest) =>
      if Head(rest) == AND {
        AdditiveGood(rest[1..]);
        match ParseAdditive(rest[1..])
        case Failed =>
        case Done(hi, _) => NewBetweenGood(left, lo, hi, negated);
      }
  }

  lemma NewBetweenGood(v: Expr, lo: Expr, hi: Expr, negated: bool)
    requires Good(v) && Good(lo) && Good(hi)
    ensures Good(Between(v, lo, hi, negated))
  {
  }

  lemma {:induction false} LikeGood(left: Expr, negated: bool, ts: Tokens)
    requires TokensOk(ts) && Good(left)
    ensures GoodParse(LikeTest(left, negated, ts))
    decreases |ts|, 6
  {
    hide ParseAdditive, TokenOk;
    AdditiveGood(ts);
  }

  lemma {:induction false} AdditiveGood(ts: Tokens)
    requires TokensOk(ts)
    ensures GoodParse(ParseAdditive(ts))
    decreases |ts|, 5
  {
    hide ParseMultiplicative, AdditiveRest, Good, TokenOk;
    MultiplicativeGood(ts);
    match ParseMultiplicative(ts)
    case Failed =>
    case Done(e, rest) => AdditiveRestGood(e, rest);
  }

  lemma {:induction false} AdditiveRestGood(left: Expr, ts: Tokens)
    requires TokensOk(ts) && Good(left)
    ensures GoodParse(AdditiveRest(left, ts))
    decreases |ts|, 5
  {
    hide ParseMultiplicative, Good, TokenOk;
    if ToAdditive(Head(ts)).Some? {
      MultiplicativeGood(ts[1..]);
      match ParseMultiplicative(ts[1..])
      case Failed =>
      case Done(right, rest) =>
        ArithGood(ToAdditive(Head(ts)).value, left, right);
        AdditiveRestGood(Arith(ToAdditive(Head(ts)).value, left, right), rest);
    }
  }

  lemma ArithGood(op: ArithmeticOp, l: Expr, r: Expr)
    requires Good(l) && Good(r)
    ensures Good(Arith(op, l, r))
  {
  }

  lemma {:induction false} MultiplicativeGood(ts: Tokens)
    requires TokensOk(ts)
    ensures GoodParse(ParseMultiplicative(ts))
    decreases |ts|, 4
  {
    hide ParseUnary, MultiplicativeRest, Good, TokenOk;
    UnaryGood(ts);
    match ParseUnary(ts)
    case Failed =>
    case Done(e, rest) => MultiplicativeRestGood(e, rest);
  }

  lemma {:induction false} MultiplicativeRestGood(left: Expr, ts: Tokens)
    requires TokensOk(ts) && Good(left)
    ensures GoodParse(MultiplicativeRest(left, ts))
    decreases |ts|, 4
  {
    hide ParseUnary, Good, TokenOk;
    if ToMultiplicative(Head(ts)).Some? {
      UnaryGood(ts[1..]);
      match ParseUnary(ts[1..])
      case Failed =>
      case Done(right, rest) =>
        ArithGood(ToMultiplicative(Head(ts)).value, left, right);
        MultiplicativeRestGood(Arith(ToMultiplicative(Head(ts)).value, left, right), rest);
    }
  }

  lemma {:induction false} UnaryGood(ts: Tokens)
    requires TokensOk(ts)
    ensures GoodParse(ParseUnary(ts))
    decreases |ts|, 3
  {
    hide ParsePrimary, Good, TokenOk, Negate;
    if Head(ts) == MINUS {
      UnaryGood(ts[1..]);
      if ParseUnary(ts[1..]).Done? {
        NegateGood(ParseUnary(ts[1..]).value);
      }
    } else if Head(ts) == PLUS {
      UnaryGood(ts[1..]);
    } else {
      PrimaryGood(ts);
    }
  }

  lemma {:induction false} PrimaryGood(ts: Tokens)
    requires TokensOk(ts)
    ensures GoodParse(ParsePrimary(ts))
    decreases |ts|, 2
  {
    hide ParseCase, ParseCall, ParseAggregate, ParseColumn, ParseParenthesized, UnsignedLiteral, IsAggregateName, Good, TokenOk;
    match Head(ts)
    case CASE => CaseGood(ts);
    case LPAREN =>
      if Second(ts) != SELECT {
        ParenthesizedGood(ts[1..]);
      }
    case IDENTIFIER =>
      if Second(ts) != LPAREN {
        ColumnGood(ts);
      } else if IsAggregateName(ts[0].lexeme) {
        AggregateGood(ts);
      } else {
        CallGood(ts);
      }
    case _ => UnsignedGood(ts);
  }

  lemma {:induction false} ParenthesizedGood(ts: Tokens)
    requires TokensOk(ts)
    ensures GoodParse(ParseParenthesized(ts))
    decreases |ts|, 11
  {
    hide ParseOr, Good, TokenOk;
    OrGood(ts);
  }

  lemma {:induction false} CallGood(ts: Tokens)
    requires TokensOk(ts) && Head(ts) == IDENTIFIER && Second(ts) == LPAREN && !IsAggregateName(ts[0].lexeme)
    ensures GoodParse(ParseCall(ts))
    decreases |ts|, 1
  {
    hide ParseArgs, ParseCast, Upper, IsAggregateName, IsName;
    assert TokenOk(ts[0]);
    UpperName(ts[0].lexeme);
    if Upper(ts[0].lexeme) == "CAST" {
      CastGood(ts[2..]);
    } else if Head(ts[2..]) != RPAREN {
      ArgsGood([], ts[2..]);
    }
  }

  ghost predicate GoodArgs(p: Parsed<seq<Expr>>) {
    p.Done? ==> AllGood(p.value) && TokensOk(p.rest)
  }

  lemma {:induction false} ArgsGood(args: seq<Expr>, ts: Tokens)
    requires TokensOk(ts) && AllGood(args)
    ensures GoodArgs(ParseArgs(args, ts))
    decreases |ts|, 11
  {
    hide ParseOr, Good, TokenOk;
    OrGood(ts);
    match ParseOr(ts)
    case Failed =>
    case Done(e, rest) =>
      if Head(rest) == COMMA {
        ArgsGood(args + [e], rest[1..]);
      }
  }

  lemma {:induction false} CastGood(ts: Tokens)
    requires TokensOk(ts)
    ensures GoodParse(ParseCast(ts))
    decreases |ts|, 11
  {
    hide ParseOr, ParseCastType, TokenOk, TokensOk, Good;
    OrGood(ts);
    match ParseOr(ts)
    case Failed =>
    case Done(e, rest) =>
      if Head(rest) == AS {
        SuffixOk(rest, 1);
        CastEndGood(e, rest[1..]);
      }
  }

  lemma CastEndGood(e: Expr, ts: Tokens)
    requires TokensOk(ts) && Good(e)
    ensures ParseCastType(ts).Done? ==> TokensOk(ParseCastType(ts).rest) && Good(Cast(e, ParseCastType(ts).value))
    ensures ParseCastType(ts).Done? && ParseCastType(ts).rest != [] ==> TokensOk(ParseCastType(ts).rest[1..])
  {
    hide TokenOk;
  }

  lemma {:induction false} CaseGood(ts: Tokens)
    requires TokensOk(ts) && Head(ts) == CASE
    ensures GoodParse(ParseCase(ts))
    decreases |ts|, 1
  {
    hide ParseBranches, CaseEnd, Good, TokenOk;
    BranchesGood([], ts[1..]);
    match ParseBranches([], ts[1..])
    case Failed =>
    case Done(branches, rest) =>
      if branches != [] {
        CaseEndGood(branches, rest);
      }
  }

  ghost predicate GoodBranch(b: Branch) {
    Good(b.cond) && Good(b.then_)
  }

  ghost predicate GoodBranches(p: Parsed<seq<Branch>>) {
    p.Done? ==> (forall i :: 0 <= i < |p.value| ==> GoodBranch(p.value[i])) && TokensOk(p.rest)
  }

  lemma {:induction false} BranchesGood(branches: seq<Branch>, ts: Tokens)
    requires TokensOk(ts) && forall i :: 0 <= i < |branches| ==> GoodBranch(branches[i])
    ensures GoodBranches(ParseBranches(branches, ts))
    decreases |ts|, 11
  {
    hide ParseOr, ParseAdditive, Good, TokenOk;
    if Head(ts) == WHERE {
      OrGood(ts[1..]);
      match ParseOr(ts[1..])
      case Failed =>
      case Done(cond, rest) =>
        if Head(rest) == THEN {
          AdditiveGood(rest[1..]);
          match ParseAdditive(rest[1..])
          case Failed =>
          case Done(then_, end) => BranchesGood(branches + [Branch(cond, then_)], end);
        }
    }
  }

  lemma {:induction false} CaseEndGood(branches: seq<Branch>, ts: Tokens)
    requires TokensOk(ts) && branches != [] && forall i :: 0 <= i < |branches| ==> GoodBranch(branches[i])
    ensures GoodParse(CaseEnd(branches, ts))
    decreases |ts|, 11
  {
    hide ParseAdditive, Good, TokenOk;
    if Head(ts) != ELSE {
      NewCaseGood(branches, None);
    } else {
      AdditiveGood(ts[1..]);
      match ParseAdditive(ts[1..])
      case Failed =>
      case Done(e, rest) => NewCaseGood(branches, Some(e));
    }
  }

  lemma NewCaseGood(branches: seq<Branch>, orElse: Option<Expr>)
    requires branches != [] && (forall i :: 0 <= i < |branches| ==> GoodBranch(branches[i])) && (orElse.Some? ==> Good(orElse.value))
    ensures Good(Case(branches, orElse))
  {
    forall i | 0 <= i < |branches| ensures GrammaticalBranch(branches[i]) && AllUnboundIn(branches[i]) {
      assert GoodBranch(branches[i]);
    }
  }

  /** Every expression read from text is in the printer's language, columns unbound. */
  lemma ReloadedGood(text: string)
    requires Reload(text).Some?
    ensures Grammatical(Reload(text).value) && AllUnbound(Reload(text).value)
  {
    hide Lex, ParseOr, Grammatical, AllUnbound, TokenOk;
    LexedOk(text);
    OrGood(Lex(text));
  }
}
