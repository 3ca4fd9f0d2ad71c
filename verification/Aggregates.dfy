/** Aggregates over columns of values: the running accumulator, merging of partial ones,
    and what the results mean. */
module Aggregates {
  import opened Values

  datatype AggKind = CountStar | Count | Sum | Avg | Min | Max

  datatype Acc = Acc(count: nat, isum: int, dsum: real, isFloat: bool, best: Option<Value>)

  const EMPTY := Acc(0, 0, 0.0, false, None)

  function IntPart(v: Value): int {
    if v.Int? then v.i else 0
  }

  function DoublePart(v: Value): real {
    if v.Double? then v.d else 0.0
  }

  /** Whether v replaces the best value so far. */
  predicate Better(kind: AggKind, v: Value, best: Value) {
    match CompareValues(v, best)
    case None => false
    case Some(c) => (kind == Min && c < 0) || (kind == Max && c > 0)
  }

  function PickBest(kind: AggKind, a: Option<Value>, b: Option<Value>): Option<Value> {
    if b.None? then a
    else if a.None? then b
    else if Better(kind, b.value, a.value) then b
    else a
  }

  function AddValue(kind: AggKind, acc: Acc, v: Value): Acc {
    match kind
    case CountStar => acc.(count := acc.count + 1)
    case Count => if v.Null? then acc else acc.(count := acc.count + 1)
    case Sum | Avg =>
      if v.Null? then acc
      else if v.Double? then acc.(isFloat := true, dsum := acc.dsum + v.d, count := acc.count + 1)
      else acc.(isum := acc.isum + IntPart(v), count := acc.count + 1)
    case Min | Max => if v.Null? then acc else acc.(best := PickBest(kind, acc.best, Some(v)))
  }

  function MergePartial(kind: AggKind, a: Acc, b: Acc): Acc {
    Acc(a.count + b.count, a.isum + b.isum, a.dsum + b.dsum, a.isFloat || b.isFloat,
        if kind == Min || kind == Max then PickBest(kind, a.best, b.best) else a.best)
  }

  function Finalize(kind: AggKind, acc: Acc): Value {
    match kind
    case CountStar | Count => Int(acc.count)
    case Sum =>
      if acc.count == 0 then Null
      else if acc.isFloat then Double(acc.dsum + acc.isum as real)
      else Int(acc.isum)
    case Avg => if acc.count == 0 then Null else Double((acc.dsum + acc.isum as real) / acc.count as real)
    case Min | Max => if acc.best.Some? then acc.best.value else Null
  }

  function Fold(kind: AggKind, vs: seq<Value>): Acc {
    if vs == [] then EMPTY else AddValue(kind, Fold(kind, vs[..|vs| - 1]), vs[|vs| - 1])
  }

  /** An aggregate's value over a column's cells. */
  function AggregateOf(kind: AggKind, vs: seq<Value>): Value {
    Finalize(kind, Fold(kind, vs))
  }

  // ----- The row engine

  function Cell(row: Row, c: int): Value {
    if 0 <= c < |row| then row[c] else Null
  }

  function Cells(rows: seq<Row>, c: int): (vs: seq<Value>)
    ensures |vs| == |rows|
    ensures forall i :: 0 <= i < |rows| ==> vs[i] == Cell(rows[i], c)
  {
    seq(|rows|, i requires 0 <= i < |rows| => Cell(rows[i], c))
  }

  /** The non-null cells of a column, in row order. */
  function NonNull(vs: seq<Value>): (r: seq<Value>)
    ensures forall i :: 0 <= i < |r| ==> !r[i].Null?
  {
    if vs == [] then []
    else NonNull(vs[..|vs| - 1]) + (if vs[|vs| - 1].Null? then [] else [vs[|vs| - 1]])
  }

  /** Aggregation as the row engine does it: collect the column's non-null cells, then run over them. */
  method ComputeAggregate(kind: AggKind, c: int, rows: seq<Row>) returns (r: Value)
    ensures r == AggregateOf(kind, Cells(rows, c))
  {
    hide AggregateOf, NonNull, AddValue;
    if kind == CountStar {
      CountsAll(Cells(rows, c));
      return Int(|rows|);
    }
    var vals := CollectCells(c, rows);
    IgnoresNulls(kind, Cells(rows, c));
    match kind {
      case Sum | Avg => r := SumUp(kind, vals);
      case Min | Max => r := FindBest(kind, vals);
      case _ =>
        CountsAll(vals);
        r := Int(|vals|);
    }
  }

  method CollectCells(c: int, rows: seq<Row>) returns (vals: seq<Value>)
    ensures vals == NonNull(Cells(rows, c))
  {
    ghost var cells := Cells(rows, c);
    vals := [];
    var i := 0;
    while i < |rows|
      invariant 0 <= i <= |rows| && vals == NonNull(cells[..i])
    {
      assert cells[..i + 1][..i] == cells[..i];
      if 0 <= c < |rows[i]| && !rows[i][c].Null? {
        vals := vals + [rows[i][c]];
      }
      i := i + 1;
    }
    assert cells[..|rows|] == cells;
  }

  method SumUp(kind: AggKind, vals: seq<Value>) returns (r: Value)
    requires (kind == Sum || kind == Avg) && forall i :: 0 <= i < |vals| ==> !vals[i].Null?
    ensures r == AggregateOf(kind, vals)
  {
    var isum, dsum, n, isFloat := 0, 0.0, 0, false;
    var i := 0;
    while i < |vals|
      invariant 0 <= i <= |vals| && Fold(kind, vals[..i]) == Acc(n, isum, dsum, isFloat, None)
      invariant n == i
    {
      assert vals[..i + 1][..i] == vals[..i];
      if vals[i].Double? {
        isFloat := true;
        dsum := dsum + vals[i].d;
      } else {
        isum := isum + IntPart(vals[i]);
      }
      n := n + 1;
      i := i + 1;
    }
    assert vals[..|vals|] == vals;
    if n == 0 {
      return Null;
    }
    var total := dsum + isum as real;
    if kind == Avg {
      return Double(total / n as real);
    }
    r := if isFloat then Double(total) else Int(isum);
  }

  method FindBest(kind: AggKind, vals: seq<Value>) returns (best: Value)
    requires (kind == Min || kind == Max) && forall i :: 0 <= i < |vals| ==> !vals[i].Null?
    ensures best == AggregateOf(kind, vals)
  {
    hide Better;
    best := Null;
    var i := 0;
    while i < |vals|
      invariant 0 <= i <= |vals|
      invariant Fold(kind, vals[..i]).best == if best.Null? then None else Some(best)
    {
      assert vals[..i + 1][..i] == vals[..i];
      if best.Null? || Better(kind, vals[i], best) {
        best := vals[i];
      }
      i := i + 1;
    }
    assert vals[..|vals|] == vals;
  }

  lemma {:induction false} CountsAll(vs: seq<Value>)
    ensures AggregateOf(CountStar, vs) == Int(|vs|)
    ensures (forall i :: 0 <= i < |vs| ==> !vs[i].Null?) ==> AggregateOf(Count, vs) == Int(|vs|)
  {
    if vs != [] {
      CountsAll(vs[..|vs| - 1]);
    }
  }

  lemma NonNullStep(vs: seq<Value>)
    requires vs != []
    ensures var init, v := vs[..|vs| - 1], vs[|vs| - 1];
      NonNull(vs) == if v.Null? then NonNull(init) else NonNull(init) + [v]
  {
  }

  lemma {:induction false} IgnoresNulls(kind: AggKind, vs: seq<Value>)
    requires kind != CountStar
    ensures AggregateOf(kind, vs) == AggregateOf(kind, NonNull(vs)) && Fold(kind, vs) == Fold(kind, NonNull(vs))
  {
    if vs != [] {
      var init, v := vs[..|vs| - 1], vs[|vs| - 1];
      IgnoresNulls(kind, init);
      NonNullStep(vs);
      if !v.Null? {
        assert NonNull(vs)[..|NonNull(vs)| - 1] == NonNull(init);
      }
    }
  }

  // ----- Merging

  ghost predicate AllOfKind(k: Kind, vs: seq<Value>) {
    forall i :: 0 <= i < |vs| ==> OfKind(k, vs[i])
  }

  ghost predicate BestOk(k: Kind, b: Option<Value>) {
    b.Some? ==> !b.value.Null? && OfKind(k, b.value)
  }

  /** Within a kind, a value is better exactly if it comes first (or last) in the value order. */
  lemma BetterIsLess(kind: AggKind, k: Kind, v: Value, w: Value)
    requires (kind == Min || kind == Max) && OfKind(k, v) && OfKind(k, w) && !v.Null? && !w.Null?
    ensures Better(kind, v, w) <==> if kind == Min then ValueLess(v, w) else ValueLess(w, v)
  {
    if v.Text? {
      CompareTextSwap(v.t, w.t);
    }
  }

  lemma BetterTotal(kind: AggKind, k: Kind, v: Value, w: Value)
    requires (kind == Min || kind == Max) && OfKind(k, v) && OfKind(k, w) && !v.Null? && !w.Null?
    ensures v == w || Better(kind, v, w) || Better(kind, w, v)
    ensures !(Better(kind, v, w) && Better(kind, w, v))
  {
    hide Better, ValueLess, OfKind;
    BetterIsLess(kind, k, v, w);
    BetterIsLess(kind, k, w, v);
    ValueLessTotal(k, v, w);
  }

  lemma BetterTransitive(kind: AggKind, k: Kind, u: Value, v: Value, w: Value)
    requires (kind == Min || kind == Max) && OfKind(k, u) && OfKind(k, v) && OfKind(k, w) && !u.Null? && !v.Null? && !w.Null?
    requires Better(kind, u, v) && Better(kind, v, w)
    ensures Better(kind, u, w)
  {
    hide Better, ValueLess, OfKind;
    BetterIsLess(kind, k, u, v);
    BetterIsLess(kind, k, v, w);
    BetterIsLess(kind, k, u, w);
    if kind == Min {
      ValueLessTransitive(k, u, v, w);
    } else {
      ValueLessTransitive(k, w, v, u);
    }
  }

  lemma PickSwap(kind: AggKind, k: Kind, a: Option<Value>, b: Option<Value>)
    requires (kind == Min || kind == Max) && BestOk(k, a) && BestOk(k, b)
    ensures PickBest(kind, a, b) == PickBest(kind, b, a) && BestOk(k, PickBest(kind, a, b))
  {
    hide Better, OfKind;
    if a.Some? && b.Some? {
      BetterTotal(kind, k, a.value, b.value);
    }
  }

  lemma PickAssociative(kind: AggKind, k: Kind, a: Option<Value>, b: Option<Value>, c: Option<Value>)
    requires (kind == Min || kind == Max) && BestOk(k, a) && BestOk(k, b) && BestOk(k, c)
    ensures PickBest(kind, PickBest(kind, a, b), c) == PickBest(kind, a, PickBest(kind, b, c))
  {
    hide Better, OfKind;
    if a.Some? && b.Some? && c.Some? {
      var x, y, z := a.value, b.value, c.value;
      BetterTotal(kind, k, x, y);
      BetterTotal(kind, k, y, z);
      BetterTotal(kind, k, x, z);
      if Better(kind, y, x) && Better(kind, z, y) {
        BetterTransitive(kind, k, z, y, x);
      }
      if !Better(kind, y, x) && !Better(kind, z, y) && Better(kind, z, x) {
        if x != y && y != z {
          BetterTransitive(kind, k, x, y, z);
        }
      }
    }
  }

  ghost predicate AccOk(kind: AggKind, k: Kind, a: Acc) {
    BestOk(k, a.best) && (kind != Min && kind != Max ==> a.best == None)
  }

  lemma MergeSwap(kind: AggKind, k: Kind, a: Acc, b: Acc)
    requires AccOk(kind, k, a) && AccOk(kind, k, b)
    ensures MergePartial(kind, a, b) == MergePartial(kind, b, a) && AccOk(kind, k, MergePartial(kind, a, b))
  {
    hide PickBest;
    if kind == Min || kind == Max {
      PickSwap(kind, k, a.best, b.best);
    }
  }

  lemma MergeAssociative(kind: AggKind, k: Kind, a: Acc, b: Acc, c: Acc)
    requires AccOk(kind, k, a) && AccOk(kind, k, b) && AccOk(kind, k, c)
    ensures MergePartial(kind, MergePartial(kind, a, b), c) == MergePartial(kind, a, MergePartial(kind, b, c))
  {
    hide PickBest;
    if kind == Min || kind == Max {
      PickAssociative(kind, k, a.best, b.best, c.best);
    }
  }

  lemma MergeEmpty(kind: AggKind, a: Acc)
    ensures MergePartial(kind, a, EMPTY) == a
    ensures (kind != Min && kind != Max ==> a.best == None) ==> MergePartial(kind, EMPTY, a) == a
  {
  }

  /** Adding a value is merging its own accumulator. */
  lemma AddIsMerge(kind: AggKind, acc: Acc, v: Value)
    ensures AddValue(kind, acc, v) == MergePartial(kind, acc, AddValue(kind, EMPTY, v))
  {
    hide PickBest, AddValue;
    if kind == Min || kind == Max {
      AddToBest(kind, acc, v);
    } else if kind == Sum || kind == Avg {
      AddToSum(kind, acc, v);
    } else {
      AddToCount(kind, acc, v);
    }
  }

  lemma AddToBest(kind: AggKind, acc: Acc, v: Value)
    requires kind == Min || kind == Max
    ensures AddValue(kind, acc, v) == MergePartial(kind, acc, AddValue(kind, EMPTY, v))
  {
    hide PickBest;
    PickFirst(kind, Some(v));
    PickFirst(kind, acc.best);
  }

  lemma AddToSum(kind: AggKind, acc: Acc, v: Value)
    requires kind == Sum || kind == Avg
    ensures AddValue(kind, acc, v) == MergePartial(kind, acc, AddValue(kind, EMPTY, v))
  {
    hide PickBest, IntPart;
    if v.Null? {
    } else if v.Double? {
      AddFloat(acc, v.d);
    } else {
      AddInt(acc, IntPart(v));
    }
  }

  lemma AddFloat(acc: Acc, d: real)
    ensures acc.dsum + (EMPTY.dsum + d) == acc.dsum + d && acc.isum + EMPTY.isum == acc.isum
  {
  }

  lemma AddInt(acc: Acc, i: int)
    ensures acc.dsum + EMPTY.dsum == acc.dsum && acc.isum + (EMPTY.isum + i) == acc.isum + i
  {
  }

  lemma AddToCount(kind: AggKind, acc: Acc, v: Value)
    requires kind == Count || kind == CountStar
    ensures AddValue(kind, acc, v) == MergePartial(kind, acc, AddValue(kind, EMPTY, v))
  {
    hide PickBest;
  }

  lemma PickFirst(kind: AggKind, b: Option<Value>)
    ensures PickBest(kind, None, b) == b && PickBest(kind, b, None) == b
  {
  }

  lemma AddOk(kind: AggKind, k: Kind, acc: Acc, v: Value)
    requires AccOk(kind, k, acc) && OfKind(k, v)
    ensures AccOk(kind, k, AddValue(kind, acc, v))
  {
    hide Better, OfKind;
  }

  lemma {:induction false} FoldOk(kind: AggKind, k: Kind, vs: seq<Value>)
    requires AllOfKind(k, vs)
    ensures AccOk(kind, k, Fold(kind, vs))
  {
    hide AddValue, OfKind, AccOk;
    if vs == [] {
      EmptyOk(kind, k);
    } else {
      FoldOk(kind, k, vs[..|vs| - 1]);
      AddOk(kind, k, Fold(kind, vs[..|vs| - 1]), vs[|vs| - 1]);
    }
  }

  lemma EmptyOk(kind: AggKind, k: Kind)
    ensures AccOk(kind, k, EMPTY)
  {
  }

  /** Accumulating two parts apart and merging them is accumulating the whole. */
  lemma {:induction false} FoldMerges(kind: AggKind, k: Kind, xs: seq<Value>, ys: seq<Value>)
    requires AllOfKind(k, xs) && AllOfKind(k, ys)
    ensures Fold(kind, xs + ys) == MergePartial(kind, Fold(kind, xs), Fold(kind, ys))
  {
    hide AddValue, MergePartial, OfKind, AccOk;
    if ys == [] {
      assert xs + ys == xs;
      MergeEmpty(kind, Fold(kind, xs));
    } else {
      var init, v := ys[..|ys| - 1], ys[|ys| - 1];
      assert (xs + ys)[..|xs + ys| - 1] == xs + init;
      FoldMerges(kind, k, xs, init);
      AddIsMerge(kind, Fold(kind, xs + init), v);
      AddIsMerge(kind, Fold(kind, init), v);
      FoldOk(kind, k, xs);
      FoldOk(kind, k, init);
      EmptyOk(kind, k);
      AddOk(kind, k, EMPTY, v);
      MergeAssociative(kind, k, Fold(kind, xs), Fold(kind, init), AddValue(kind, EMPTY, v));
    }
  }

  // ----- What the results mean

  /** MIN returns a cell that no other one precedes, MAX one that precedes no other, and both NULL
      if there is none. */
  lemma BestIsBest(kind: AggKind, k: Kind, vs: seq<Value>)
    requires (kind == Min || kind == Max) && AllOfKind(k, vs)
    ensures var r := AggregateOf(kind, vs);
      && (r.Null? <==> forall i :: 0 <= i < |vs| ==> vs[i].Null?)
      && (!r.Null? ==> r in vs)
      && (!r.Null? ==> forall i :: 0 <= i < |vs| && !vs[i].Null? ==> if kind == Min then !ValueLess(vs[i], r) else !ValueLess(r, vs[i]))
  {
    BestUnbeaten(kind, k, vs);
    var r := AggregateOf(kind, vs);
    hide AggregateOf, ValueLess, CompareValues;
    forall i | !r.Null? && 0 <= i < |vs| && !vs[i].Null?
      ensures if kind == Min then !ValueLess(vs[i], r) else !ValueLess(r, vs[i])
    {
      ComparisonOrder(vs[i], r);
    }
  }

  lemma {:induction false} BestUnbeaten(kind: AggKind, k: Kind, vs: seq<Value>)
    requires (kind == Min || kind == Max) && AllOfKind(k, vs)
    ensures var r := AggregateOf(kind, vs);
      && (r.Null? <==> forall i :: 0 <= i < |vs| ==> vs[i].Null?)
      && (!r.Null? ==> r in vs)
      && (!r.Null? ==> forall i :: 0 <= i < |vs| && !vs[i].Null? ==> !Better(kind, vs[i], r))
  {
    hide Better, OfKind;
    if vs != [] {
      var init, v := vs[..|vs| - 1], vs[|vs| - 1];
      BestUnbeaten(kind, k, init);
      FoldOk(kind, k, init);
      var r0, r := AggregateOf(kind, init), AggregateOf(kind, vs);
      if !v.Null? && !r0.Null? {
        BetterTotal(kind, k, v, v);
        BetterTotal(kind, k, v, r0);
        forall i | 0 <= i < |vs| && !vs[i].Null? ensures !Better(kind, vs[i], r) {
          if i < |init| && r == v && r != r0 && Better(kind, vs[i], v) {
            assert vs[i] == init[i];
            BetterTransitive(kind, k, vs[i], v, r0);
          }
        }
      } else if !v.Null? {
        BetterTotal(kind, k, v, v);
      }
    }
  }

  /** COUNT(*) counts the cells, COUNT those that are not NULL, each as often as it occurs. */
  lemma {:induction false} CountsCells(vs: seq<Value>)
    ensures AggregateOf(CountStar, vs) == Int(|vs|) && AggregateOf(Count, vs) == Int(|NonNull(vs)|)
    ensures forall v: Value :: multiset(NonNull(vs))[v] == if v.Null? then 0 else multiset(vs)[v]
  {
    if vs != [] {
      var init, v := vs[..|vs| - 1], vs[|vs| - 1];
      CountsCells(init);
      assert vs == init + [v];
    }
  }

  function Total(vs: seq<Value>): real {
    if vs == [] then 0.0
    else Total(vs[..|vs| - 1]) + DoublePart(vs[|vs| - 1]) + IntPart(vs[|vs| - 1]) as real
  }

  /** SUM is the sum of the cells, AVG that divided by the number of non-null ones. */
  lemma {:induction false} SumIsSum(k: Kind, vs: seq<Value>)
    requires AllOfKind(k, vs)
    ensures var n := |NonNull(vs)|;
      && (n == 0 ==> AggregateOf(Sum, vs) == AggregateOf(Avg, vs) == Null)
      && (n > 0 && k == KDouble ==> AggregateOf(Sum, vs) == Double(Total(vs)))
      && (n > 0 && k != KDouble ==> AggregateOf(Sum, vs).Int? && AggregateOf(Sum, vs).i as real == Total(vs))
      && (n > 0 ==> AggregateOf(Avg, vs) == Double(Total(vs) / n as real))
  {
    SumParts(k, vs);
  }

  lemma {:induction false} SumParts(k: Kind, vs: seq<Value>)
    requires AllOfKind(k, vs)
    ensures Fold(Sum, vs) == Fold(Avg, vs)
    ensures var a := Fold(Sum, vs);
      && a.count == |NonNull(vs)| && a.dsum + a.isum as real == Total(vs)
      && (a.isFloat <==> k == KDouble && a.count > 0)
      && (k != KDouble ==> a.dsum == 0.0)
  {
    if vs != [] {
      SumParts(k, vs[..|vs| - 1]);
    }
  }
}
