/** A CHECK constraint is printed when its table is created and parsed again when the
    database is loaded: what comes back, and when it is what went in. */
module CheckConstraints {
  import opened Values
  import opened SqlAst
  import opened SqlLexer
  import opened SqlParser
  import opened SqlPrinter
  import opened SqlTokens
  import opened SqlReading
  import opened SqlPrinting
  import opened SqlRoundTrip
  import opened SqlGrammatical

  /** The printed text parses back, completely, to the expression with its numbers rounded to
      six decimals and its columns unbound. */
  lemma PrintedReloads(e: Expr)
    requires Printable(e)
    ensures ExpressionToString(e) == Some(Print(e))
    ensures Reload(Print(e)) == Some(Reloaded(e))
  {
    hide Open, Print, TokensOf, Lex, ParseOr, Grammatical;
    PrintLexes(e);
    assert Print(e) + "" == Print(e) && Lex("") == [END_TOKEN] by { EmptyLexes(); }
    assert Lex(Print(e)) == TokensOf(e) + [END_TOKEN] by { LexesAlone(e); }
    OrReads(e, [END_TOKEN]);
  }

  lemma EmptyLexes()
    ensures Lex("") == [END_TOKEN]
  {
  }

  lemma LexesAlone(e: Expr)
    requires Lexes(e)
    ensures Lex(Print(e)) == TokensOf(e) + [END_TOKEN]
  {
    hide Lex, Print, TokensOf;
    EmptyLexes();
    assert Print(e) + "" == Print(e);
    assert Ended("") && Lex(Print(e) + "") == TokensOf(e) + Lex("");
  }

  // ----- When nothing is lost

  /** The number has no more than six decimals. */
  predicate IsExact(d: real) {
    (d * 1000000.0).Floor as real == d * 1000000.0
  }

  /** Every number has at most six decimals. */
  predicate ExactFloats(e: Expr) {
    match e
    case FloatLit(d) => IsExact(d)
    case Compare(_, l, r) => ExactFloats(l) && ExactFloats(r)
    case Arith(_, l, r) => ExactFloats(l) && ExactFloats(r)
    case Logical(_, l, r) => ExactFloats(l) && ExactFloats(r)
    case Not(x) => ExactFloats(x)
    case IsNull(x, _) => ExactFloats(x)
    case Between(v, lo, hi, _) => ExactFloats(v) && ExactFloats(lo) && ExactFloats(hi)
    case Like(v, p, _) => ExactFloats(v) && ExactFloats(p)
    case In(v, items, _) => ExactFloats(v) && forall i :: 0 <= i < |items| ==> ExactFloats(items[i])
    case Cast(x, _) => ExactFloats(x)
    case Call(_, args) => forall i :: 0 <= i < |args| ==> ExactFloats(args[i])
    case Case(branches, orElse) =>
      (forall i :: 0 <= i < |branches| ==> ExactFloatsIn(branches[i])) && (orElse.Some? ==> ExactFloats(orElse.value))
    case _ => true
  }

  predicate ExactFloatsIn(b: Branch) {
    ExactFloats(b.cond) && ExactFloats(b.then_)
  }

  lemma RoundedSame(d: real)
    ensures Rounded(d) == d <==> IsExact(d)
  {
    var a := if d < 0.0 then -d else d;
    var m := a * 1000000.0;
    if m.Floor as real == m {
      assert (m + 0.5).Floor == m.Floor;
    }
    if d < 0.0 {
      assert (-m).Floor as real == -m <==> m.Floor as real == m by { NegatedFloor(m); }
    }
  }

  lemma NegatedFloor(m: real)
    ensures (-m).Floor as real == -m <==> m.Floor as real == m
  {
    if m.Floor as real == m {
      assert -m == (-(m.Floor)) as real;
    }
    if (-m).Floor as real == -m {
      assert m == (-((-m).Floor)) as real;
    }
  }

  lemma {:induction false} ReloadedSame(e: Expr)
    ensures Reloaded(e) == e <==> ExactFloats(e) && AllUnbound(e)
    decreases e, 2
  {
    hide Rounded, IsExact;
    match e
    case FloatLit(d) => RoundedSame(d);
    case Compare(_, l, r) => ReloadedSame(l); ReloadedSame(r);
    case Arith(_, l, r) => ReloadedSame(l); ReloadedSame(r);
    case Logical(_, l, r) => ReloadedSame(l); ReloadedSame(r);
    case Not(x) => ReloadedSame(x);
    case IsNull(x, _) => ReloadedSame(x);
    case Between(_, _, _, _) => ComparisonSame(e);
    case Like(_, _, _) => ComparisonSame(e);
    case In(_, _, _) => ComparisonSame(e);
    case Cast(x, _) => ReloadedSame(x);
    case Call(_, args) => ListSame(args);
    case Case(_, _) => CaseSame(e);
    case _ =>
  }

  lemma {:induction false} ComparisonSame(e: Expr)
    requires e.Between? || e.Like? || e.In?
    ensures Reloaded(e) == e <==> ExactFloats(e) && AllUnbound(e)
    decreases e, 1
  {
    hide ReloadedList;
    match e
    case Between(v, lo, hi, _) => ReloadedSame(v); ReloadedSame(lo); ReloadedSame(hi);
    case Like(v, p, _) => ReloadedSame(v); ReloadedSame(p);
    case In(v, items, _) => ReloadedSame(v); ListSame(items);
  }

  lemma {:induction false} CaseSame(e: Expr)
    requires e.Case?
    ensures Reloaded(e) == e <==> ExactFloats(e) && AllUnbound(e)
    decreases e, 1
  {
    hide ReloadedBranches, ExactFloatsIn, AllUnboundIn;
    BranchesSame(e.branches);
    if e.orElse.Some? {
      ReloadedSame(e.orElse.value);
    }
  }

  lemma {:induction false} ListSame(es: seq<Expr>)
    ensures ReloadedList(es) == es <==> forall i :: 0 <= i < |es| ==> ExactFloats(es[i]) && AllUnbound(es[i])
    decreases es, 0
  {
    hide Reloaded, ExactFloats, AllUnbound;
    if es != [] {
      ReloadedSame(es[0]);
      ListSame(es[1..]);
      assert es == [es[0]] + es[1..];
      assert forall i :: 0 < i < |es| ==> es[i] == es[1..][i - 1];
    }
  }

  lemma {:induction false} BranchesSame(bs: seq<Branch>)
    ensures ReloadedBranches(bs) == bs <==> forall i :: 0 <= i < |bs| ==> ExactFloatsIn(bs[i]) && AllUnboundIn(bs[i])
    decreases bs, 0
  {
    hide ReloadedBranch, ExactFloatsIn, AllUnboundIn;
    if bs != [] {
      BranchSame(bs[0]);
      BranchesSame(bs[1..]);
      assert bs == [bs[0]] + bs[1..];
      assert forall i :: 0 < i < |bs| ==> bs[i] == bs[1..][i - 1];
    }
  }

  lemma {:induction false} BranchSame(b: Branch)
    ensures ReloadedBranch(b) == b <==> ExactFloatsIn(b) && AllUnboundIn(b)
    decreases b, 0
  {
    hide Reloaded, ExactFloats, AllUnbound;
    ReloadedSame(b.cond);
    ReloadedSame(b.then_);
  }

  /** A printable expression comes back as itself exactly when its numbers have at most six
      decimals and its columns were not bound. */
  lemma ReloadsUnchangedIff(e: Expr)
    requires Printable(e)
    ensures Reload(Print(e)) == Some(e) <==> ExactFloats(e) && AllUnbound(e)
  {
    hide Print, Reload, Reloaded, Grammatical;
    PrintedReloads(e);
    ReloadedSame(e);
  }

  /** A constraint as the user wrote it: parsed, printed when the table is created, parsed
      again on load. The loaded constraint is the original one, unless it calls an aggregate
      (the printer throws) or holds a number with more than six decimals (it is rounded). */
  lemma StoredCheckReloads(text: string)
    requires Reload(text).Some?
    ensures var e := Reload(text).value;
      && (ExpressionToString(e).None? <==> !NoAggregates(e))
      && (NoAggregates(e) ==> Reload(Print(e)) == Some(Reloaded(e)))
      && (NoAggregates(e) ==> (Reload(Print(e)) == Some(e) <==> ExactFloats(e)))
  {
    hide Print, Reload, Reloaded, Grammatical, AllUnbound;
    ReloadedGood(text);
    var e := Reload(text).value;
    if NoAggregates(e) {
      PrintedReloads(e);
      ReloadsUnchangedIff(e);
    }
  }

  lemma RoundedIsExact(d: real)
    ensures IsExact(Rounded(d))
  {
    var n := Millionths(if d < 0.0 then -d else d);
    hide Millionths;
    var x := n as real / 1000000.0;
    assert x * 1000000.0 == n as real && (x * 1000000.0).Floor == n;
    NegatedFloor(x * 1000000.0);
    assert Rounded(d) == x || Rounded(d) == -x;
  }

  lemma {:induction false} ReloadedSettled(e: Expr)
    requires NoAggregates(e)
    ensures NoAggregates(Reloaded(e)) && ExactFloats(Reloaded(e))
    decreases e, 2
  {
    hide Rounded, IsExact;
    match e
    case FloatLit(d) => RoundedIsExact(d);
    case Compare(_, l, r) => ReloadedSettled(l); ReloadedSettled(r);
    case Arith(_, l, r) => ReloadedSettled(l); ReloadedSettled(r);
    case Logical(_, l, r) => ReloadedSettled(l); ReloadedSettled(r);
    case Not(x) => ReloadedSettled(x);
    case IsNull(x, _) => ReloadedSettled(x);
    case Between(_, _, _, _) => ComparisonSettled(e);
    case Like(_, _, _) => ComparisonSettled(e);
    case In(_, _, _) => ComparisonSettled(e);
    case Cast(x, _) => ReloadedSettled(x);
    case Call(_, args) => ListSettled(args);
    case Case(_, _) => CaseSettled(e);
    case _ =>
  }

  lemma {:induction false} ComparisonSettled(e: Expr)
    requires NoAggregates(e) && (e.Between? || e.Like? || e.In?)
    ensures NoAggregates(Reloaded(e)) && ExactFloats(Reloaded(e))
    decreases e, 1
  {
    hide ReloadedList;
    match e
    case Between(v, lo, hi, _) => ReloadedSettled(v); ReloadedSettled(lo); ReloadedSettled(hi);
    case Like(v, p, _) => ReloadedSettled(v); ReloadedSettled(p);
    case In(v, items, _) => ReloadedSettled(v); ListSettled(items);
  }

  lemma {:induction false} CaseSettled(e: Expr)
    requires NoAggregates(e) && e.Case?
    ensures NoAggregates(Reloaded(e)) && ExactFloats(Reloaded(e))
    decreases e, 1
  {
    hide ReloadedBranches, NoAggregatesIn, ExactFloatsIn;
    BranchesSettled(e.branches);
    if e.orElse.Some? {
      ReloadedSettled(e.orElse.value);
    }
  }

  lemma {:induction false} ListSettled(es: seq<Expr>)
    requires forall i :: 0 <= i < |es| ==> NoAggregates(es[i])
    ensures forall i :: 0 <= i < |ReloadedList(es)| ==> NoAggregates(ReloadedList(es)[i]) && ExactFloats(ReloadedList(es)[i])
    decreases es, 0
  {
    hide Reloaded, ExactFloats, NoAggregates;
    if es != [] {
      ReloadedSettled(es[0]);
      ListSettled(es[1..]);
    }
  }

  lemma {:induction false} BranchesSettled(bs: seq<Branch>)
    requires forall i :: 0 <= i < |bs| ==> NoAggregatesIn(bs[i])
    ensures forall i :: 0 <= i < |ReloadedBranches(bs)| ==> NoAggregatesIn(ReloadedBranches(bs)[i]) && ExactFloatsIn(ReloadedBranches(bs)[i])
    decreases bs, 0
  {
    hide ReloadedBranch, ExactFloatsIn, NoAggregatesIn;
    if bs != [] {
      BranchSettled(bs[0]);
      BranchesSettled(bs[1..]);
    }
  }

  lemma {:induction false} BranchSettled(b: Branch)
    requires NoAggregatesIn(b)
    ensures NoAggregatesIn(ReloadedBranch(b)) && ExactFloatsIn(ReloadedBranch(b))
    decreases b, 0
  {
    hide Reloaded, ExactFloats, NoAggregates;
    ReloadedSettled(b.cond);
    ReloadedSettled(b.then_);
  }

  /** However often a database is saved and loaded, a constraint changes at most once. */
  lemma SecondReloadSame(text: string)
    requires Reload(text).Some? && NoAggregates(Reload(text).value)
    ensures var again := Reload(Print(Reload(text).value));
      again.Some? && NoAggregates(again.value) && Reload(Print(again.value)) == again
  {
    hide Print, Reload, Reloaded, Grammatical, AllUnbound, NoAggregates, ExactFloats;
    var e := Reload(text).value;
    StoredCheckReloads(text);
    ReloadedSettled(e);
    StoredCheckReloads(Print(e));
  }

  // ----- The one integer that does not come back

  /** Integer literals come back, except the smallest 64-bit one: its magnitude does not fit
      64 bits, so its text does not parse. */
  lemma IntReloadsIff(i: int)
    requires IsInt64(i)
    ensures Reload(Print(IntLit(i))) == Some(IntLit(i)) <==> i != -INT64_MAX - 1
    ensures i == -INT64_MAX - 1 ==> Reload(Print(IntLit(i))) == None
  {
    hide Print, Reload, Lex;
    if i != -INT64_MAX - 1 {
      PrintedReloads(IntLit(i));
    } else {
      SmallestInt(i);
    }
  }

  lemma SmallestInt(i: int)
    requires i == -INT64_MAX - 1
    ensures Reload(Print(IntLit(i))) == None
  {
    hide Digits, DigitsValue, Lex, Open;
    var d := Token(INTEGER_LITERAL, Digits(-i));
    IntOpen(-i);
    DigitsRead(-i);
    SignedOpen(Digits(-i), [d]);
    EmptyLexes();
    assert Print(IntLit(i)) + "" == Print(IntLit(i));
    var ts := Lex(Print(IntLit(i)));
    assert ts == [MINUS_SIGN, d, END_TOKEN] by { OpenAlone("-" + Digits(-i), [MINUS_SIGN] + [d]); }
    assert MakeLiteral(d).None?;
    assert ts[1..] == [d, END_TOKEN];
    assert ParsePrimary(ts[1..]).Failed?;
    assert ParseUnary(ts[1..]).Failed? && ParseUnary(ts).Failed?;
    assert ParseMultiplicative(ts).Failed? && ParseAdditive(ts).Failed? && ParseComparison(ts).Failed?;
    assert ParseNot(ts).Failed? && ParseAnd(ts).Failed? && ParseOr(ts).Failed?;
  }

  lemma OpenAlone(s: string, ts: Tokens)
    requires Open(s, ts)
    ensures Lex(s) == ts + [END_TOKEN]
  {
    hide Lex;
    EmptyLexes();
    assert s + "" == s;
    assert Ended("") && Lex(s + "") == ts + Lex("");
  }
}
