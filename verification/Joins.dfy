/** Equi-joins: the hash join and the sort-merge join against the nested loop. */
module Joins {
  import opened Values
  import opened RowOrder
  import opened RowCodec
  import opened SqlPrinter
  import opened SqlLexer
  import opened SqlParser
  import opened SqlTokens
  import Evaluator
  import ExternalSort

  // ----- The nested loop

  /** Keys join when they compare equal; NULL never does. */
  predicate KeysMatch(a: Value, b: Value) {
    CompareValues(a, b) == Some(0)
  }

  ghost predicate Columned(rows: seq<Row>, c: nat, k: Kind) {
    forall i :: 0 <= i < |rows| ==> ColumnedRow(rows[i], c, k)
  }

  predicate ColumnedRow(row: Row, c: nat, k: Kind) {
    c < |row| && OfKind(k, row[c])
  }

  predicate HasColumn(rows: seq<Row>, c: nat) {
    forall i :: 0 <= i < |rows| ==> c < |rows[i]|
  }

  /** The left row joined with every matching right row, in order. */
  function Matching(l: Row, lk: nat, right: seq<Row>, rk: nat): seq<Row>
    requires lk < |l| && HasColumn(right, rk)
  {
    if right == [] then []
    else
      var init, r := right[..|right| - 1], right[|right| - 1];
      Matching(l, lk, init, rk) + (if KeysMatch(l[lk], r[rk]) then [l + r] else [])
  }

  function NestedLoop(left: seq<Row>, lk: nat, right: seq<Row>, rk: nat): seq<Row>
    requires HasColumn(left, lk) && HasColumn(right, rk)
  {
    if left == [] then []
    else NestedLoop(left[..|left| - 1], lk, right, rk) + Matching(left[|left| - 1], lk, right, rk)
  }

  /** Within one type keys match exactly if they are equal and not NULL. */
  lemma MatchIsEqual(k: Kind, a: Value, b: Value)
    requires OfKind(k, a) && OfKind(k, b)
    ensures KeysMatch(a, b) <==> a == b && !a.Null?
  {
    if a.Text? && b.Text? {
      CompareTextZero(a.t, b.t);
    }
  }

  // ----- What the nested loop yields

  function PairsOf(l: Row, right: seq<Row>): seq<Row> {
    if right == [] then [] else PairsOf(l, right[..|right| - 1]) + [l + right[|right| - 1]]
  }

  /** Every left row next to every right row. */
  function Product(left: seq<Row>, right: seq<Row>): seq<Row> {
    if left == [] then [] else Product(left[..|left| - 1], right) + PairsOf(left[|left| - 1], right)
  }

  /** The join condition on such rows: the left key column equals the right one. */
  function JoinCondition(width: nat, lk: nat, rk: nat): SqlAst.Expr {
    SqlAst.Compare(SqlAst.Eq, SqlAst.Column("", "", lk), SqlAst.Column("", "", width + rk))
  }

  lemma {:induction false} FilterAppend(e: SqlAst.Expr, a: seq<Row>, b: seq<Row>, fns: Evaluator.Functions)
    ensures Evaluator.Filter(e, a + b, fns) == Evaluator.Filter(e, a, fns) + Evaluator.Filter(e, b, fns)
  {
    hide Evaluator.Filter;
    if a == [] {
      NoRowsKept(e, fns);
      assert a + b == b;
    } else {
      FilterAppend(e, a[1..], b, fns);
      FirstRowKept(e, a, fns);
      FirstRowKept(e, a + b, fns);
      assert (a + b)[0] == a[0] && (a + b)[1..] == a[1..] + b;
    }
  }

  lemma FirstRowKept(e: SqlAst.Expr, rows: seq<Row>, fns: Evaluator.Functions)
    requires rows != []
    ensures Evaluator.Filter(e, rows, fns) == Evaluator.Filter(e, [rows[0]], fns) + Evaluator.Filter(e, rows[1..], fns)
  {
    hide Evaluator.Eval;
    var one: seq<Row> := [rows[0]];
    assert one[1..] == [];
  }

  lemma ConditionHolds(l: Row, lk: nat, r: Row, rk: nat, fns: Evaluator.Functions)
    requires lk < |l| && rk < |r|
    ensures Evaluator.Filter(JoinCondition(|l|, lk, rk), [l + r], fns) == if KeysMatch(l[lk], r[rk]) then [l + r] else []
  {
    hide CompareValues;
    var row, e := l + r, JoinCondition(|l|, lk, rk);
    assert Evaluator.Eval(e, row, fns) == Evaluator.CompareWith(SqlAst.Eq, row[lk], row[|l| + rk]);
    assert row[lk] == l[lk] && row[|l| + rk] == r[rk];
    var one: seq<Row> := [row];
    assert one[1..] == [];
  }

  lemma {:induction false} MatchingIsFilter(l: Row, lk: nat, right: seq<Row>, rk: nat, fns: Evaluator.Functions)
    requires lk < |l| && HasColumn(right, rk)
    ensures Matching(l, lk, right, rk) == Evaluator.Filter(JoinCondition(|l|, lk, rk), PairsOf(l, right), fns)
  {
    hide KeysMatch, JoinCondition, Evaluator.Filter;
    if right == [] {
      NoRowsKept(JoinCondition(|l|, lk, rk), fns);
    } else {
      var init, r := right[..|right| - 1], right[|right| - 1];
      MatchingIsFilter(l, lk, init, rk, fns);
      FilterAppend(JoinCondition(|l|, lk, rk), PairsOf(l, init), [l + r], fns);
      ConditionHolds(l, lk, r, rk, fns);
    }
  }

  lemma NoRowsKept(e: SqlAst.Expr, fns: Evaluator.Functions)
    ensures Evaluator.Filter(e, [], fns) == []
  {
  }

  /** The nested loop yields, in order, the pairs of rows for which the join condition is TRUE. */
  lemma {:induction false} NestedLoopIsFilter(left: seq<Row>, lk: nat, right: seq<Row>, rk: nat, width: nat, fns: Evaluator.Functions)
    requires lk < width && HasColumn(right, rk) && forall i :: 0 <= i < |left| ==> |left[i]| == width
    ensures HasColumn(left, lk) && NestedLoop(left, lk, right, rk) == Evaluator.Filter(JoinCondition(width, lk, rk), Product(left, right), fns)
  {
    hide Matching, PairsOf, JoinCondition, Evaluator.Filter;
    if left == [] {
      NoRowsKept(JoinCondition(width, lk, rk), fns);
    } else {
      var init, l := left[..|left| - 1], left[|left| - 1];
      NestedLoopIsFilter(init, lk, right, rk, width, fns);
      MatchingIsFilter(l, lk, right, rk, fns);
      FilterAppend(JoinCondition(width, lk, rk), Product(init, right), PairsOf(l, right), fns);
    }
  }

  // ----- The hash join

  function IntText(i: int): string {
    if i < 0 then "-" + Digits(-i) else Digits(i)
  }

  /** A value as the hash table's key: its type tag and its text. How floats print is not modelled. */
  function KeyText(v: Value, show: real -> string): string {
    match v
    case Null => "0:NULL"
    case Int(i) => "1:" + IntText(i)
    case Bool(b) => if b then "2:TRUE" else "2:FALSE"
    case Text(t) => "3:" + t
    case Double(d) => "4:" + show(d)
  }

  /** Different keys of one type have different texts, except for floats. */
  lemma KeyTextInjective(k: Kind, v: Value, w: Value, show: real -> string)
    requires OfKind(k, v) && OfKind(k, w) && !v.Null? && !w.Null? && k != KDouble
    requires KeyText(v, show) == KeyText(w, show)
    ensures v == w
  {
    match v
    case Int(i) => IntTextInjective(i, w.i);
    case Bool(b) =>
      assert KeyText(v, show)[2] == if b then 'T' else 'F';
      assert KeyText(w, show)[2] == if w.b then 'T' else 'F';
    case Text(t) =>
      assert KeyText(v, show)[2..] == t;
      assert KeyText(w, show)[2..] == w.t;
  }

  lemma IntTextInjective(i: int, j: int)
    requires "1:" + IntText(i) == "1:" + IntText(j)
    ensures i == j
  {
    hide Digits, DigitsValue;
    assert ("1:" + IntText(i))[2..] == IntText(i);
    assert ("1:" + IntText(j))[2..] == IntText(j);
    var a, b := if i < 0 then -i else i, if j < 0 then -j else j;
    DigitsRead(a);
    DigitsRead(b);
    assert IsDigit(Digits(a)[0]) && IsDigit(Digits(b)[0]) by { assert Digits(a) != "" && Digits(b) != ""; }
    assert IntText(i)[0] == '-' <==> i < 0 by { SignShows(i, Digits(a)); }
    assert IntText(j)[0] == '-' <==> j < 0 by { SignShows(j, Digits(b)); }
    if i < 0 {
      assert IntText(i)[1..] == Digits(a) && IntText(j)[1..] == Digits(b);
    }
  }

  lemma SignShows(i: int, digits: string)
    requires digits != "" && '0' <= digits[0] <= '9' && IntText(i) == if i < 0 then "-" + digits else digits
    ensures IntText(i)[0] == '-' <==> i < 0
  {
    hide IntText;
  }

  /** The rows whose key has the given text, in order. */
  function WithKey(rows: seq<Row>, c: nat, key: string, show: real -> string): (out: seq<Row>)
    requires HasColumn(rows, c)
  {
    if rows == [] then []
    else
      var init, r := rows[..|rows| - 1], rows[|rows| - 1];
      WithKey(init, c, key, show) + (if !r[c].Null? && KeyText(r[c], show) == key then [r] else [])
  }

  function Join(l: Row, rs: seq<Row>): (out: seq<Row>)
    ensures |out| == |rs| && forall i :: 0 <= i < |rs| ==> out[i] == l + rs[i]
  {
    seq(|rs|, i requires 0 <= i < |rs| => l + rs[i])
  }

  /** Keys meet in the hash table when their texts are equal; NULL never enters it. */
  predicate TextsMatch(a: Value, b: Value, show: real -> string) {
    !a.Null? && !b.Null? && KeyText(a, show) == KeyText(b, show)
  }

  /** The left row joined with every right row whose key has the same text, in order. */
  function Hashed(l: Row, lk: nat, right: seq<Row>, rk: nat, show: real -> string): seq<Row>
    requires lk < |l| && HasColumn(right, rk)
  {
    if right == [] then []
    else
      var init, r := right[..|right| - 1], right[|right| - 1];
      Hashed(l, lk, init, rk, show) + (if TextsMatch(l[lk], r[rk], show) then [l + r] else [])
  }

  /** The nested loop with texts compared instead of values. */
  function HashedLoop(left: seq<Row>, lk: nat, right: seq<Row>, rk: nat, show: real -> string): seq<Row>
    requires HasColumn(left, lk) && HasColumn(right, rk)
  {
    if left == [] then []
    else HashedLoop(left[..|left| - 1], lk, right, rk, show) + Hashed(left[|left| - 1], lk, right, rk, show)
  }

  lemma {:induction false} BucketMatches(l: Row, lk: nat, right: seq<Row>, rk: nat, show: real -> string)
    requires lk < |l| && HasColumn(right, rk)
    ensures Hashed(l, lk, right, rk, show) == if l[lk].Null? then [] else Join(l, WithKey(right, rk, KeyText(l[lk], show), show))
  {
    hide KeyText;
    if right != [] {
      BucketMatches(l, lk, right[..|right| - 1], rk, show);
    }
  }

  ghost predicate TableOk(ht: map<string, seq<Row>>, rows: seq<Row>, c: nat, show: real -> string)
    requires HasColumn(rows, c)
  {
    forall key :: Bucket(ht, key) == WithKey(rows, c, key, show)
  }

  function Bucket(ht: map<string, seq<Row>>, key: string): seq<Row> {
    if key in ht then ht[key] else []
  }

  method BuildTable(right: seq<Row>, rk: nat, show: real -> string) returns (ht: map<string, seq<Row>>)
    requires HasColumn(right, rk)
    ensures TableOk(ht, right, rk, show)
  {
    hide KeyText;
    ht := map[];
    var i := 0;
    while i < |right|
      invariant 0 <= i <= |right| && TableOk(ht, right[..i], rk, show)
    {
      ghost var before := ht;
      var r := right[i];
      if !r[rk].Null? {
        var key := KeyText(r[rk], show);
        ht := ht[key := Bucket(ht, key) + [r]];
      }
      assert right[..i + 1][..i] == right[..i];
      forall key ensures Bucket(ht, key) == WithKey(right[..i + 1], rk, key, show) {
        assert Bucket(before, key) == WithKey(right[..i], rk, key, show);
      }
      i := i + 1;
    }
    assert right[..|right|] == right;
  }

  /** The hash join yields the rows whose keys have equal texts, in the nested loop's order. */
  method HashJoin(left: seq<Row>, lk: nat, right: seq<Row>, rk: nat, show: real -> string) returns (out: seq<Row>)
    requires HasColumn(left, lk) && HasColumn(right, rk)
    ensures out == HashedLoop(left, lk, right, rk, show)
  {
    hide KeyText, Hashed;
    var ht := BuildTable(right, rk, show);
    out := [];
    var i := 0;
    while i < |left|
      invariant 0 <= i <= |left| && out == HashedLoop(left[..i], lk, right, rk, show)
    {
      var l := left[i];
      assert left[..i + 1][..i] == left[..i];
      BucketMatches(l, lk, right, rk, show);
      if !l[lk].Null? {
        var key := KeyText(l[lk], show);
        assert Bucket(ht, key) == WithKey(right, rk, key, show);
        out := out + Join(l, Bucket(ht, key));
      }
      i := i + 1;
    }
    assert left[..|left|] == left;
  }

  /** Equal texts, of columns that are not both floats, mean equal values; equal values have equal
      texts exactly if they have the same type. */
  lemma TextsMatchIff(a: Value, b: Value, ka: Kind, kb: Kind, show: real -> string)
    requires OfKind(ka, a) && OfKind(kb, b) && (ka != KDouble || kb != KDouble)
    ensures TextsMatch(a, b, show) <==> KeysMatch(a, b) && Tag(a) == Tag(b)
  {
    if !a.Null? && !b.Null? {
      assert KeyText(a, show)[0] as int == '0' as int + Tag(a) && KeyText(b, show)[0] as int == '0' as int + Tag(b);
      if Tag(a) == Tag(b) {
        hide KeyText, KeysMatch;
        MatchIsEqual(ka, a, b);
        if KeyText(a, show) == KeyText(b, show) {
          KeyTextInjective(ka, a, b, show);
        }
      }
    }
  }

  /** Every match has keys of one type. */
  ghost predicate MatchesTyped(left: seq<Row>, lk: nat, right: seq<Row>, rk: nat)
    requires HasColumn(left, lk) && HasColumn(right, rk)
  {
    forall i, j :: 0 <= i < |left| && 0 <= j < |right| && KeysMatch(left[i][lk], right[j][rk]) ==> Tag(left[i][lk]) == Tag(right[j][rk])
  }

  ghost predicate RowMatchesTyped(l: Row, lk: nat, right: seq<Row>, rk: nat)
    requires lk < |l| && HasColumn(right, rk)
  {
    forall j :: 0 <= j < |right| && KeysMatch(l[lk], right[j][rk]) ==> Tag(l[lk]) == Tag(right[j][rk])
  }

  lemma {:induction false} HashedIff(l: Row, lk: nat, right: seq<Row>, rk: nat, ka: Kind, kb: Kind, show: real -> string)
    requires ColumnedRow(l, lk, ka) && Columned(right, rk, kb) && HasColumn(right, rk) && (ka != KDouble || kb != KDouble)
    ensures |Hashed(l, lk, right, rk, show)| <= |Matching(l, lk, right, rk)|
    ensures if RowMatchesTyped(l, lk, right, rk) then Hashed(l, lk, right, rk, show) == Matching(l, lk, right, rk)
            else |Hashed(l, lk, right, rk, show)| < |Matching(l, lk, right, rk)|
  {
    hide KeysMatch, TextsMatch, OfKind, Tag;
    if right != [] {
      var init, r := right[..|right| - 1], right[|right| - 1];
      HashedIff(l, lk, init, rk, ka, kb, show);
      assert ColumnedRow(r, rk, kb);
      TextsMatchIff(l[lk], r[rk], ka, kb, show);
      assert RowMatchesTyped(l, lk, right, rk) <==> RowMatchesTyped(l, lk, init, rk) && (KeysMatch(l[lk], r[rk]) ==> Tag(l[lk]) == Tag(r[rk])) by {
        assert forall j :: 0 <= j < |init| ==> right[j] == init[j];
      }
    }
  }

  lemma {:induction false} LoopsIff(left: seq<Row>, lk: nat, right: seq<Row>, rk: nat, ka: Kind, kb: Kind, show: real -> string)
    requires Columned(left, lk, ka) && Columned(right, rk, kb) && HasColumn(left, lk) && HasColumn(right, rk) && (ka != KDouble || kb != KDouble)
    ensures |HashedLoop(left, lk, right, rk, show)| <= |NestedLoop(left, lk, right, rk)|
    ensures if MatchesTyped(left, lk, right, rk) then HashedLoop(left, lk, right, rk, show) == NestedLoop(left, lk, right, rk)
            else |HashedLoop(left, lk, right, rk, show)| < |NestedLoop(left, lk, right, rk)|
  {
    hide KeysMatch, OfKind, Tag, Hashed, Matching;
    if left != [] {
      var init, l := left[..|left| - 1], left[|left| - 1];
      LoopsIff(init, lk, right, rk, ka, kb, show);
      assert ColumnedRow(l, lk, ka);
      HashedIff(l, lk, right, rk, ka, kb, show);
      assert MatchesTyped(left, lk, right, rk) <==> MatchesTyped(init, lk, right, rk) && RowMatchesTyped(l, lk, right, rk) by {
        assert forall i :: 0 <= i < |init| ==> left[i] == init[i];
      }
    }
  }

  /** Joining columns that are not both floats, the hash join yields what the nested loop yields if
      and only if every match has keys of one type: an integer equal to a float is lost. */
  lemma HashJoinIff(left: seq<Row>, lk: nat, right: seq<Row>, rk: nat, ka: Kind, kb: Kind, show: real -> string)
    requires Columned(left, lk, ka) && Columned(right, rk, kb) && HasColumn(left, lk) && HasColumn(right, rk) && (ka != KDouble || kb != KDouble)
    ensures HashedLoop(left, lk, right, rk, show) == NestedLoop(left, lk, right, rk) <==> MatchesTyped(left, lk, right, rk)
    ensures ka == kb ==> HashedLoop(left, lk, right, rk, show) == NestedLoop(left, lk, right, rk)
  {
    hide HashedLoop, NestedLoop, KeysMatch;
    LoopsIff(left, lk, right, rk, ka, kb, show);
    if ka == kb {
      forall i, j | 0 <= i < |left| && 0 <= j < |right| && KeysMatch(left[i][lk], right[j][rk])
        ensures Tag(left[i][lk]) == Tag(right[j][rk])
      {
        assert ColumnedRow(left[i], lk, ka) && ColumnedRow(right[j], rk, kb);
        MatchIsEqual(ka, left[i][lk], right[j][rk]);
      }
    }
  }

  // ----- The nested loop does not depend on row order, as a bag

  lemma {:induction false} MatchingAppend(l: Row, lk: nat, a: seq<Row>, b: seq<Row>, rk: nat)
    requires lk < |l| && HasColumn(a, rk) && HasColumn(b, rk)
    ensures HasColumn(a + b, rk) && Matching(l, lk, a + b, rk) == Matching(l, lk, a, rk) + Matching(l, lk, b, rk)
  {
    hide KeysMatch;
    if b == [] {
      assert a + b == a;
    } else {
      MatchingAppend(l, lk, a, b[..|b| - 1], rk);
      assert (a + b)[..|a + b| - 1] == a + b[..|b| - 1];
    }
  }

  lemma {:induction false} NestedAppend(a: seq<Row>, b: seq<Row>, lk: nat, right: seq<Row>, rk: nat)
    requires HasColumn(a, lk) && HasColumn(b, lk) && HasColumn(right, rk)
    ensures HasColumn(a + b, lk) && NestedLoop(a + b, lk, right, rk) == NestedLoop(a, lk, right, rk) + NestedLoop(b, lk, right, rk)
  {
    hide Matching, NestedLoop;
    if b == [] {
      assert a + b == a;
      NoLeft(lk, right, rk);
    } else {
      var init, last := b[..|b| - 1], b[|b| - 1];
      NestedAppend(a, init, lk, right, rk);
      assert a + b == (a + init) + [last] && b == init + [last];
      NestedStep(a + init, last, lk, right, rk);
      NestedStep(init, last, lk, right, rk);
    }
  }

  lemma NoLeft(lk: nat, right: seq<Row>, rk: nat)
    requires HasColumn(right, rk)
    ensures NestedLoop([], lk, right, rk) == []
  {
  }

  lemma NestedStep(a: seq<Row>, l: Row, lk: nat, right: seq<Row>, rk: nat)
    requires HasColumn(a, lk) && lk < |l| && HasColumn(right, rk)
    ensures HasColumn(a + [l], lk)
    ensures NestedLoop(a + [l], lk, right, rk) == NestedLoop(a, lk, right, rk) + Matching(l, lk, right, rk)
  {
    hide Matching;
    assert (a + [l])[..|a + [l]| - 1] == a;
  }

  /** An element of the one is somewhere in the other; both without it are still the same bag. */
  lemma FindRow(a: seq<Row>, b: seq<Row>) returns (i: nat)
    requires a != [] && multiset(a) == multiset(b)
    ensures i < |b| && b[i] == a[|a| - 1]
    ensures multiset(a[..|a| - 1]) == multiset(b[..i] + b[i + 1..])
  {
    var r := a[|a| - 1];
    Without(a, |a| - 1);
    assert a[..|a| - 1] + a[|a|..] == a[..|a| - 1];
    assert r in multiset(b);
    i :| 0 <= i < |b| && b[i] == r;
    Without(b, i);
    Cancelled(multiset(a[..|a| - 1]), multiset(b[..i] + b[i + 1..]), r);
  }

  lemma Without(b: seq<Row>, i: nat)
    requires i < |b|
    ensures multiset(b) == multiset(b[..i] + b[i + 1..]) + multiset{b[i]}
    ensures b == b[..i] + [b[i]] + b[i + 1..]
  {
    assert b == b[..i] + [b[i]] + b[i + 1..];
  }

  lemma Cancelled(x: multiset<Row>, y: multiset<Row>, r: Row)
    requires x + multiset{r} == y + multiset{r}
    ensures x == y
  {
    assert x == (x + multiset{r}) - multiset{r};
    assert y == (y + multiset{r}) - multiset{r};
  }

  /** What one right row contributes. */
  function Pair(l: Row, lk: nat, r: Row, rk: nat): multiset<Row>
    requires lk < |l| && rk < |r|
  {
    if KeysMatch(l[lk], r[rk]) then multiset{l + r} else multiset{}
  }

  lemma MatchingWithout(l: Row, lk: nat, b: seq<Row>, rk: nat, i: nat)
    requires lk < |l| && HasColumn(b, rk) && i < |b|
    ensures HasColumn(b[..i] + b[i + 1..], rk)
    ensures multiset(Matching(l, lk, b, rk)) == multiset(Matching(l, lk, b[..i] + b[i + 1..], rk)) + Pair(l, lk, b[i], rk)
  {
    hide KeysMatch, Matching;
    MatchingAppend(l, lk, b[..i], b[i + 1..], rk);
    MatchingAppend(l, lk, b[..i], [b[i]], rk);
    MatchingAppend(l, lk, b[..i] + [b[i]], b[i + 1..], rk);
    OneMatch(l, lk, b[i], rk);
    Without(b, i);
  }

  lemma {:induction false} MatchingPermuted(l: Row, lk: nat, a: seq<Row>, b: seq<Row>, rk: nat)
    requires lk < |l| && HasColumn(a, rk) && HasColumn(b, rk) && multiset(a) == multiset(b)
    ensures multiset(Matching(l, lk, a, rk)) == multiset(Matching(l, lk, b, rk))
    decreases |a|
  {
    hide Pair, Matching;
    if a == [] {
      assert |multiset(b)| == 0;
    } else {
      var i := FindRow(a, b);
      MatchingWithout(l, lk, b, rk, i);
      MatchingWithout(l, lk, a, rk, |a| - 1);
      assert a[..|a| - 1] + a[|a|..] == a[..|a| - 1];
      MatchingPermuted(l, lk, a[..|a| - 1], b[..i] + b[i + 1..], rk);
    }
  }

  lemma OneMatch(l: Row, lk: nat, r: Row, rk: nat)
    requires lk < |l| && rk < |r|
    ensures Matching(l, lk, [r], rk) == if KeysMatch(l[lk], r[rk]) then [l + r] else []
  {
    hide KeysMatch;
    assert [r][..0] == [];
  }

  lemma {:induction false} RightPermuted(left: seq<Row>, lk: nat, a: seq<Row>, b: seq<Row>, rk: nat)
    requires HasColumn(left, lk) && HasColumn(a, rk) && HasColumn(b, rk) && multiset(a) == multiset(b)
    ensures multiset(NestedLoop(left, lk, a, rk)) == multiset(NestedLoop(left, lk, b, rk))
    decreases |left|
  {
    hide Matching;
    if left != [] {
      RightPermuted(left[..|left| - 1], lk, a, b, rk);
      MatchingPermuted(left[|left| - 1], lk, a, b, rk);
    }
  }

  lemma NestedWithout(b: seq<Row>, lk: nat, right: seq<Row>, rk: nat, i: nat)
    requires HasColumn(b, lk) && HasColumn(right, rk) && i < |b|
    ensures HasColumn(b[..i] + b[i + 1..], lk)
    ensures multiset(NestedLoop(b, lk, right, rk)) ==
      multiset(NestedLoop(b[..i] + b[i + 1..], lk, right, rk)) + multiset(Matching(b[i], lk, right, rk))
  {
    hide Matching, NestedLoop;
    NestedAppend(b[..i], b[i + 1..], lk, right, rk);
    NestedAppend(b[..i], [b[i]], lk, right, rk);
    NestedAppend(b[..i] + [b[i]], b[i + 1..], lk, right, rk);
    OneLeft(b[i], lk, right, rk);
    Without(b, i);
  }

  lemma {:induction false} LeftPermuted(a: seq<Row>, b: seq<Row>, lk: nat, right: seq<Row>, rk: nat)
    requires HasColumn(a, lk) && HasColumn(b, lk) && HasColumn(right, rk) && multiset(a) == multiset(b)
    ensures multiset(NestedLoop(a, lk, right, rk)) == multiset(NestedLoop(b, lk, right, rk))
    decreases |a|
  {
    hide Matching, NestedLoop;
    if a == [] {
      assert |multiset(b)| == 0;
    } else {
      var i := FindRow(a, b);
      NestedWithout(b, lk, right, rk, i);
      NestedWithout(a, lk, right, rk, |a| - 1);
      assert a[..|a| - 1] + a[|a|..] == a[..|a| - 1];
      LeftPermuted(a[..|a| - 1], b[..i] + b[i + 1..], lk, right, rk);
    }
  }

  lemma OneLeft(l: Row, lk: nat, right: seq<Row>, rk: nat)
    requires lk < |l| && HasColumn(right, rk)
    ensures NestedLoop([l], lk, right, rk) == Matching(l, lk, right, rk)
  {
    hide Matching;
    assert [l][..0] == [];
  }

  // ----- The merge join

  lemma {:induction false} NoMatch(l: Row, lk: nat, right: seq<Row>, rk: nat)
    requires lk < |l| && HasColumn(right, rk) && forall b :: 0 <= b < |right| ==> !KeysMatch(l[lk], right[b][rk])
    ensures Matching(l, lk, right, rk) == []
  {
    hide KeysMatch;
    if right != [] {
      NoMatch(l, lk, right[..|right| - 1], rk);
    }
  }

  lemma {:induction false} AllMatch(l: Row, lk: nat, right: seq<Row>, rk: nat)
    requires lk < |l| && HasColumn(right, rk) && forall b :: 0 <= b < |right| ==> KeysMatch(l[lk], right[b][rk])
    ensures Matching(l, lk, right, rk) == Join(l, right)
  {
    hide KeysMatch;
    if right != [] {
      AllMatch(l, lk, right[..|right| - 1], rk);
    }
  }

  /** Rows sorted by one ascending column have that column's values in order. */
  ghost predicate Ordered(rows: seq<Row>, c: nat)
    requires HasColumn(rows, c)
  {
    forall i, j :: 0 <= i < j < |rows| ==> !ValueLess(rows[j][c], rows[i][c])
  }

  lemma SortedIsOrdered(rows: seq<Row>, c: nat)
    requires HasColumn(rows, c) && Sorted(rows, [SortKey(c, true)])
    ensures Ordered(rows, c)
  {
    hide ValueLess;
    var keys := [SortKey(c, true)];
    forall i, j | 0 <= i < j < |rows| ensures !ValueLess(rows[j][c], rows[i][c]) {
      assert Leq(rows[i], rows[j], keys);
    }
  }

  /** A key equal to another one, as the merge tests it. */
  predicate SameKey(a: Value, b: Value) {
    !ValueLess(a, b) && !ValueLess(b, a)
  }

  /** The end of the run of rows with the key of row i. */
  method GroupEnd(rows: seq<Row>, c: nat, i: nat, ghost k: Kind) returns (end: nat)
    requires Columned(rows, c, k) && HasColumn(rows, c) && Ordered(rows, c) && i < |rows|
    ensures i < end <= |rows|
    ensures forall x :: i <= x < end ==> rows[x][c] == rows[i][c]
    ensures forall x :: end <= x < |rows| ==> ValueLess(rows[i][c], rows[x][c])
  {
    hide ValueLess, OfKind;
    var key := rows[i][c];
    end := i;
    assert ColumnedRow(rows[i], c, k);
    ValueLessTotal(k, key, key);
    while end < |rows| && SameKey(key, rows[end][c])
      invariant i <= end <= |rows| && (end == i ==> SameKey(key, rows[i][c]))
      invariant forall x :: i <= x < end ==> rows[x][c] == key
    {
      assert ColumnedRow(rows[end], c, k);
      ValueLessTotal(k, key, rows[end][c]);
      end := end + 1;
    }
    forall x | end <= x < |rows| ensures ValueLess(key, rows[x][c]) {
      Beyond(rows, c, k, i, end, x);
    }
  }

  lemma Beyond(rows: seq<Row>, c: nat, k: Kind, i: nat, end: nat, x: nat)
    requires Columned(rows, c, k) && HasColumn(rows, c) && Ordered(rows, c) && i < end <= x < |rows|
    requires !SameKey(rows[i][c], rows[end][c])
    ensures ValueLess(rows[i][c], rows[x][c])
  {
    hide ValueLess, OfKind;
    assert ColumnedRow(rows[i], c, k) && ColumnedRow(rows[end], c, k) && ColumnedRow(rows[x], c, k);
    if x > end {
      KeyOrder(k, rows[i][c], rows[end][c], rows[x][c]);
    }
  }

  /** No left row from i on matches a right row before j. */
  ghost predicate Passed(left: seq<Row>, lk: nat, right: seq<Row>, rk: nat, i: nat, j: nat)
    requires HasColumn(left, lk) && HasColumn(right, rk)
  {
    forall a, b :: i <= a < |left| && 0 <= b < j && b < |right| ==> !KeysMatch(left[a][lk], right[b][rk])
  }

  /** The left key is NULL or smaller than every key left on the right: the row matches nothing. */
  lemma LeftUnmatched(left: seq<Row>, lk: nat, right: seq<Row>, rk: nat, i: nat, j: nat, k: Kind)
    requires Columned(left, lk, k) && Columned(right, rk, k) && HasColumn(left, lk) && HasColumn(right, rk)
    requires Ordered(right, rk) && Passed(left, lk, right, rk, i, j) && i < |left| && j < |right|
    requires left[i][lk].Null? || ValueLess(left[i][lk], right[j][rk])
    ensures NestedLoop(left[..i + 1], lk, right, rk) == NestedLoop(left[..i], lk, right, rk)
    ensures Passed(left, lk, right, rk, i + 1, j)
  {
    hide ValueLess, OfKind, KeysMatch;
    assert ColumnedRow(left[i], lk, k);
    forall b | 0 <= b < |right| ensures !KeysMatch(left[i][lk], right[b][rk]) {
      if b >= j {
        assert ColumnedRow(right[b], rk, k) && ColumnedRow(right[j], rk, k);
        MatchIsEqual(k, left[i][lk], right[b][rk]);
        KeyOrder(k, left[i][lk], right[j][rk], right[b][rk]);
        ValueLessTotal(k, right[j][rk], right[b][rk]);
      }
    }
    NoMatch(left[i], lk, right, rk);
    assert left[..i + 1][..i] == left[..i];
  }

  /** The right key is NULL or smaller than every key left on the left. */
  lemma RightUnmatched(left: seq<Row>, lk: nat, right: seq<Row>, rk: nat, i: nat, j: nat, k: Kind)
    requires Columned(left, lk, k) && Columned(right, rk, k) && HasColumn(left, lk) && HasColumn(right, rk)
    requires Ordered(left, lk) && Passed(left, lk, right, rk, i, j) && i < |left| && j < |right|
    requires right[j][rk].Null? || ValueLess(right[j][rk], left[i][lk])
    ensures Passed(left, lk, right, rk, i, j + 1)
  {
    hide ValueLess, OfKind, KeysMatch;
    forall a | i <= a < |left| ensures !KeysMatch(left[a][lk], right[j][rk]) {
      assert ColumnedRow(right[j], rk, k) && ColumnedRow(left[a], lk, k) && ColumnedRow(left[i], lk, k);
      MatchIsEqual(k, left[a][lk], right[j][rk]);
      KeyOrder(k, right[j][rk], left[i][lk], left[a][lk]);
      ValueLessTotal(k, left[i][lk], left[a][lk]);
    }
  }

  /** A left row of the group matches exactly the right rows of the group. */
  lemma GroupMatches(left: seq<Row>, lk: nat, right: seq<Row>, rk: nat, i: nat, a: nat, j: nat, jEnd: nat, k: Kind)
    requires Columned(left, lk, k) && Columned(right, rk, k) && HasColumn(left, lk) && HasColumn(right, rk)
    requires Passed(left, lk, right, rk, i, j) && i <= a < |left| && j < jEnd <= |right|
    requires !left[a][lk].Null? && left[a][lk] == right[j][rk]
    requires forall x :: j <= x < jEnd ==> right[x][rk] == right[j][rk]
    requires forall x :: jEnd <= x < |right| ==> ValueLess(right[j][rk], right[x][rk])
    ensures Matching(left[a], lk, right, rk) == Join(left[a], right[j..jEnd])
  {
    hide ValueLess, OfKind, KeysMatch, Matching;
    var l := left[a];
    assert ColumnedRow(l, lk, k);
    forall b | 0 <= b < |right| ensures KeysMatch(l[lk], right[b][rk]) <==> j <= b < jEnd {
      assert ColumnedRow(right[b], rk, k);
      MatchIsEqual(k, l[lk], right[b][rk]);
      ValueLessTotal(k, l[lk], right[b][rk]);
    }
    OnlyGroup(l, lk, right, rk, j, jEnd);
  }

  lemma OnlyGroup(l: Row, lk: nat, right: seq<Row>, rk: nat, j: nat, jEnd: nat)
    requires lk < |l| && HasColumn(right, rk) && j <= jEnd <= |right|
    requires forall b :: 0 <= b < |right| ==> (KeysMatch(l[lk], right[b][rk]) <==> j <= b < jEnd)
    ensures Matching(l, lk, right, rk) == Join(l, right[j..jEnd])
  {
    hide KeysMatch, Matching;
    var before, group, behind := right[..j], right[j..jEnd], right[jEnd..];
    assert right == before + group + behind;
    NoMatch(l, lk, before, rk);
    AllMatch(l, lk, group, rk);
    NoMatch(l, lk, behind, rk);
    ThreeParts(l, lk, before, group, behind, rk);
  }

  lemma ThreeParts(l: Row, lk: nat, a: seq<Row>, b: seq<Row>, c: seq<Row>, rk: nat)
    requires lk < |l| && HasColumn(a, rk) && HasColumn(b, rk) && HasColumn(c, rk)
    requires Matching(l, lk, a, rk) == [] && Matching(l, lk, c, rk) == []
    ensures HasColumn(a + b + c, rk) && Matching(l, lk, a + b + c, rk) == Matching(l, lk, b, rk)
  {
    hide KeysMatch, Matching, HasColumn;
    MatchingAppend(l, lk, a, b, rk);
    MatchingAppend(l, lk, a + b, c, rk);
  }

  /** Combines every left row of the group with every right row of the group. */
  method JoinGroups(left: seq<Row>, lk: nat, right: seq<Row>, rk: nat, i: nat, iEnd: nat, j: nat, jEnd: nat, soFar: seq<Row>, ghost k: Kind)
    returns (out: seq<Row>)
    requires Columned(left, lk, k) && Columned(right, rk, k) && HasColumn(left, lk) && HasColumn(right, rk)
    requires Passed(left, lk, right, rk, i, j) && i < iEnd <= |left| && j < jEnd <= |right|
    requires !left[i][lk].Null? && left[i][lk] == right[j][rk]
    requires forall x :: i <= x < iEnd ==> left[x][lk] == left[i][lk]
    requires forall x :: j <= x < jEnd ==> right[x][rk] == right[j][rk]
    requires forall x :: jEnd <= x < |right| ==> ValueLess(right[j][rk], right[x][rk])
    requires soFar == NestedLoop(left[..i], lk, right, rk)
    ensures out == NestedLoop(left[..iEnd], lk, right, rk)
  {
    hide ValueLess, OfKind, KeysMatch, Matching;
    out := soFar;
    var a := i;
    while a < iEnd
      invariant i <= a <= iEnd && out == NestedLoop(left[..a], lk, right, rk)
    {
      GroupMatches(left, lk, right, rk, i, a, j, jEnd, k);
      ghost var before := out;
      var b := j;
      while b < jEnd
        invariant j <= b <= jEnd && out == before + Join(left[a], right[j..b])
      {
        out := out + [left[a] + right[b]];
        assert right[j..b + 1] == right[j..b] + [right[b]];
        b := b + 1;
      }
      assert left[..a + 1][..a] == left[..a];
      a := a + 1;
    }
  }

  /** Behind both groups nothing matches what lies before. */
  lemma GroupsPassed(left: seq<Row>, lk: nat, right: seq<Row>, rk: nat, i: nat, iEnd: nat, j: nat, jEnd: nat, k: Kind)
    requires Columned(left, lk, k) && Columned(right, rk, k) && HasColumn(left, lk) && HasColumn(right, rk)
    requires Passed(left, lk, right, rk, i, j) && i < iEnd <= |left| && j < jEnd <= |right| && left[i][lk] == right[j][rk]
    requires forall x :: iEnd <= x < |left| ==> ValueLess(left[i][lk], left[x][lk])
    requires forall x :: j <= x < jEnd ==> right[x][rk] == right[j][rk]
    ensures Passed(left, lk, right, rk, iEnd, jEnd)
  {
    hide ValueLess, OfKind, KeysMatch;
    forall a, b | iEnd <= a < |left| && 0 <= b < jEnd ensures !KeysMatch(left[a][lk], right[b][rk]) {
      if b >= j {
        assert ColumnedRow(left[a], lk, k) && ColumnedRow(right[b], rk, k);
        MatchIsEqual(k, left[a][lk], right[b][rk]);
        ValueLessTotal(k, left[a][lk], right[b][rk]);
      }
    }
  }

  lemma {:induction false} RestUnmatched(left: seq<Row>, lk: nat, right: seq<Row>, rk: nat, i: nat)
    requires HasColumn(left, lk) && HasColumn(right, rk) && i <= |left| && Passed(left, lk, right, rk, i, |right|)
    ensures NestedLoop(left, lk, right, rk) == NestedLoop(left[..i], lk, right, rk)
    decreases |left| - i
  {
    hide KeysMatch;
    if i == |left| {
      assert left[..i] == left;
    } else {
      NoMatch(left[i], lk, right, rk);
      assert left[..i + 1][..i] == left[..i];
      RestUnmatched(left, lk, right, rk, i + 1);
    }
  }

  /** The merge of two inputs sorted by key is the nested loop over them. */
  method MergeSorted(left: seq<Row>, lk: nat, right: seq<Row>, rk: nat, ghost k: Kind) returns (out: seq<Row>)
    requires Columned(left, lk, k) && Columned(right, rk, k) && HasColumn(left, lk) && HasColumn(right, rk)
    requires Ordered(left, lk) && Ordered(right, rk)
    ensures out == NestedLoop(left, lk, right, rk)
  {
    hide ValueLess, OfKind, KeysMatch, Matching, NestedLoop, Ordered, Passed;
    out := [];
    var i, j := 0, 0;
    MergeStart(left, lk, right, rk);
    while i < |left| && j < |right|
      invariant 0 <= i <= |left| && 0 <= j <= |right|
      invariant out == NestedLoop(left[..i], lk, right, rk) && Passed(left, lk, right, rk, i, j)
      decreases |left| - i + |right| - j
    {
      var x, y := left[i][lk], right[j][rk];
      assert ColumnedRow(left[i], lk, k) && ColumnedRow(right[j], rk, k);
      if x.Null? {
        LeftUnmatched(left, lk, right, rk, i, j, k);
        i := i + 1;
      } else if y.Null? {
        RightUnmatched(left, lk, right, rk, i, j, k);
        j := j + 1;
      } else if ValueLess(x, y) {
        LeftUnmatched(left, lk, right, rk, i, j, k);
        i := i + 1;
      } else if ValueLess(y, x) {
        RightUnmatched(left, lk, right, rk, i, j, k);
        j := j + 1;
      } else {
        ValueLessTotal(k, x, y);
        var iEnd := GroupEnd(left, lk, i, k);
        var jEnd := GroupEnd(right, rk, j, k);
        out := JoinGroups(left, lk, right, rk, i, iEnd, j, jEnd, out, k);
        GroupsPassed(left, lk, right, rk, i, iEnd, j, jEnd, k);
        i, j := iEnd, jEnd;
      }
    }
    MergeEnd(left, lk, right, rk, i, j);
  }

  lemma MergeStart(left: seq<Row>, lk: nat, right: seq<Row>, rk: nat)
    requires HasColumn(left, lk) && HasColumn(right, rk)
    ensures NestedLoop(left[..0], lk, right, rk) == [] && Passed(left, lk, right, rk, 0, 0)
  {
  }

  lemma MergeEnd(left: seq<Row>, lk: nat, right: seq<Row>, rk: nat, i: nat, j: nat)
    requires HasColumn(left, lk) && HasColumn(right, rk) && i <= |left| && j <= |right| && Passed(left, lk, right, rk, i, j)
    requires i == |left| || j == |right|
    ensures NestedLoop(left, lk, right, rk) == NestedLoop(left[..i], lk, right, rk)
  {
    hide KeysMatch, NestedLoop;
    if i == |left| {
      assert left[..i] == left;
    } else {
      RestUnmatched(left, lk, right, rk, i);
    }
  }

  ghost predicate JoinInput(rows: seq<Row>, c: nat, k: Kind) {
    Columned(rows, c, k) && HasColumn(rows, c) && AllSpillable(rows)
  }

  lemma InputSortable(rows: seq<Row>, c: nat, k: Kind)
    requires JoinInput(rows, c, k)
    ensures ExternalSort.RowsOk(rows, [SortKey(c, true)], [k])
  {
    hide OfKind;
    forall i | 0 <= i < |rows| ensures Keyed(rows[i], [SortKey(c, true)], [k]) && HasKeys(rows[i], [SortKey(c, true)]) {
      assert ColumnedRow(rows[i], c, k);
    }
  }

  lemma SameRowsColumned(a: seq<Row>, b: seq<Row>, c: nat, k: Kind)
    requires multiset(a) == multiset(b) && Columned(a, c, k)
    ensures Columned(b, c, k) && HasColumn(b, c)
  {
    hide OfKind;
    forall i | 0 <= i < |b| ensures ColumnedRow(b[i], c, k) {
      assert b[i] in multiset(b);
      assert b[i] in multiset(a);
      assert b[i] in a;
    }
  }

  /** Sort both inputs, within the memory limit, and merge: as a bag of rows, the nested loop. */
  method MergeJoinInner(left: seq<Row>, lk: nat, right: seq<Row>, rk: nat, memLimitRows: nat, ghost k: Kind)
    returns (out: seq<Row>)
    requires JoinInput(left, lk, k) && JoinInput(right, rk, k)
    ensures multiset(out) == multiset(NestedLoop(left, lk, right, rk))
  {
    hide Columned, Sorted, NestedLoop, AllSpillable, Ordered;
    InputSortable(left, lk, k);
    InputSortable(right, rk, k);
    var l := ExternalSort.Sort(left, [SortKey(lk, true)], memLimitRows, [k]);
    var r := ExternalSort.Sort(right, [SortKey(rk, true)], memLimitRows, [k]);
    SameRowsColumned(left, l, lk, k);
    SameRowsColumned(right, r, rk, k);
    SortedIsOrdered(l, lk);
    SortedIsOrdered(r, rk);
    out := MergeSorted(l, lk, r, rk, k);
    RightPermuted(l, lk, r, right, rk);
    LeftPermuted(l, left, lk, right, rk);
  }
}
