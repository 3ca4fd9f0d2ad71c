/** Striped parallel aggregation: worker t folds blocks t, t + n, t + 2n, ... on its own, and
    the partial accumulators are merged. Any number of workers gives the serial result. */
module ParallelAggregate {
  import opened Values
  import opened SqlAst
  import opened Evaluator
  import opened Aggregates
  import opened ColumnStore

  // ----- Stripes

  function BlockCells(terms: seq<Term>, rows: seq<Row>, c: int, b: nat): seq<Value>
    requires b < Blocks(|rows|)
  {
    BlockBounds(b, |rows|);
    Passing(terms, rows, c, BlockStart(b), BlockEnd(b, |rows|))
  }

  /** The qualifying cells of the blocks below m that worker t of n visits. */
  function Stripe(terms: seq<Term>, rows: seq<Row>, c: int, t: nat, n: nat, m: nat): seq<Value>
    requires t < n && m <= Blocks(|rows|)
    decreases m
  {
    if m == 0 then []
    else Stripe(terms, rows, c, t, n, m - 1) + (if (m - 1) % n == t then BlockCells(terms, rows, c, m - 1) else [])
  }

  /** Between one of its blocks and the next a worker has nothing to do. */
  lemma {:induction false} StripeGap(terms: seq<Term>, rows: seq<Row>, c: int, t: nat, n: nat, m: nat, m': nat)
    requires t < n && m <= m' <= Blocks(|rows|) && forall b :: m <= b < m' ==> b % n != t
    ensures Stripe(terms, rows, c, t, n, m') == Stripe(terms, rows, c, t, n, m)
    decreases m'
  {
    hide BlockCells, Blocks;
    if m < m' {
      StripeGap(terms, rows, c, t, n, m, m' - 1);
      assert (m' - 1) % n != t;
    }
  }

  lemma NextInStripe(t: nat, n: nat, b: nat, x: nat)
    requires t < n && b % n == t && b < x < b + n
    ensures x % n != t && (b + n) % n == t
  {
    var q := b / n;
    assert b == q * n + t;
    NextRemainder(q, n, t, x - b);
  }

  lemma NextRemainder(q: nat, n: nat, t: nat, d: nat)
    requires t < n && 0 < d < n
    ensures (q * n + t + d) % n != t && (q * n + t + n) % n == t
  {
    if t + d < n {
      Remainder(q, n, t + d);
      assert q * n + (t + d) == q * n + t + d;
    } else {
      Remainder(q + 1, n, t + d - n);
      assert (q + 1) * n + (t + d - n) == q * n + t + d;
    }
    Remainder(q + 1, n, t);
    assert (q + 1) * n + t == q * n + t + n;
  }

  lemma Remainder(q: nat, n: nat, r: nat)
    requires r < n
    ensures (q * n + r) % n == r
  {
    var x := q * n + r;
    var d := x / n;
    assert x == d * n + x % n;
    Multiples(d - q, n);
    assert (d - q) * n == d * n - q * n;
  }

  lemma Multiples(k: int, n: int)
    requires n >= 0
    ensures k > 0 ==> k * n >= n
    ensures k < 0 ==> k * n <= -n
  {
  }

  ghost predicate PartialOk(agg: VecAggregate, terms: seq<Term>, rows: seq<Row>, acc: Acc, t: nat, n: nat, m: nat)
    requires t < n && m <= Blocks(|rows|)
  {
    acc == Fold(agg.kind, Stripe(terms, rows, agg.column, t, n, m))
  }

  // ----- One worker

  method Worker(table: TableColumns, aggs: seq<VecAggregate>, terms: seq<Term>, skip: seq<bool>, t: nat, n: nat,
                ghost schema: Schema, ghost rows: seq<Row>) returns (partial: seq<Acc>)
    requires TableOk(table, schema, rows) && |skip| == Blocks(|rows|) && FlagsOk(skip, terms, rows)
    requires t < n <= Blocks(|rows|)
    ensures |partial| == |aggs|
    ensures forall a :: 0 <= a < |aggs| ==> PartialOk(aggs[a], terms, rows, partial[a], t, n, Blocks(|rows|))
  {
    hide TableOk, FlagsOk, Blocks, BlockStart, BlockEnd, Stripe, PartialOk, Fold;
    TableRows(table, schema, rows);
    partial := seq(|aggs|, i => EMPTY);
    NothingVisited(aggs, terms, rows, t, n);
    var b := t;
    ghost var m := t;
    while b < Blocks(table.rows)
      invariant |partial| == |aggs| && m == if b < Blocks(|rows|) then b else Blocks(|rows|)
      invariant b % n == t
      invariant forall a :: 0 <= a < |aggs| ==> PartialOk(aggs[a], terms, rows, partial[a], t, n, m)
    {
      if !skip[b] {
        partial := VisitBlock(table, aggs, terms, partial, b, t, n, schema, rows);
      } else {
        SkippedBlock(aggs, terms, rows, skip, partial, b, t, n);
      }
      ghost var next := if b + n < Blocks(|rows|) then b + n else Blocks(|rows|);
      ToNext(aggs, terms, rows, partial, t, n, b, next);
      m := next;
      b := b + n;
    }
  }

  lemma NothingVisited(aggs: seq<VecAggregate>, terms: seq<Term>, rows: seq<Row>, t: nat, n: nat)
    requires t < n <= Blocks(|rows|)
    ensures t % n == t
    ensures forall a :: 0 <= a < |aggs| ==> PartialOk(aggs[a], terms, rows, EMPTY, t, n, t)
  {
    hide Blocks;
    Remainder(0, n, t);
    assert forall b :: 0 <= b < t ==> b % n != t by {
      forall b: nat | b < t ensures b % n != t {
        Remainder(0, n, b);
      }
    }
    forall a | 0 <= a < |aggs| ensures PartialOk(aggs[a], terms, rows, EMPTY, t, n, t) {
      StripeGap(terms, rows, aggs[a].column, t, n, 0, t);
    }
  }

  lemma ToNext(aggs: seq<VecAggregate>, terms: seq<Term>, rows: seq<Row>, partial: seq<Acc>, t: nat, n: nat, b: nat, next: nat)
    requires t < n && b % n == t && b < next <= b + n && b < Blocks(|rows|) && next <= Blocks(|rows|)
    requires |partial| == |aggs| && forall a :: 0 <= a < |aggs| ==> PartialOk(aggs[a], terms, rows, partial[a], t, n, b + 1)
    ensures forall a :: 0 <= a < |aggs| ==> PartialOk(aggs[a], terms, rows, partial[a], t, n, next)
    ensures (b + n) % n == t
  {
    hide Blocks, Stripe, Fold;
    forall x | b + 1 <= x < next ensures x % n != t {
      NextInStripe(t, n, b, x);
    }
    assert (b + n) % n == t by {
      assert b == b / n * n + t;
      Remainder(b / n + 1, n, t);
      assert (b / n + 1) * n + t == b + n;
    }
    forall a | 0 <= a < |aggs| ensures PartialOk(aggs[a], terms, rows, partial[a], t, n, next) {
      StripeGap(terms, rows, aggs[a].column, t, n, b + 1, next);
      assert PartialOk(aggs[a], terms, rows, partial[a], t, n, b + 1);
    }
  }

  lemma SkippedBlock(aggs: seq<VecAggregate>, terms: seq<Term>, rows: seq<Row>, skip: seq<bool>, partial: seq<Acc>, b: nat, t: nat, n: nat)
    requires |skip| == Blocks(|rows|) && FlagsOk(skip, terms, rows) && b < |skip| && skip[b] && t < n
    requires |partial| == |aggs| && forall a :: 0 <= a < |aggs| ==> PartialOk(aggs[a], terms, rows, partial[a], t, n, b)
    ensures forall a :: 0 <= a < |aggs| ==> PartialOk(aggs[a], terms, rows, partial[a], t, n, b + 1)
  {
    hide FlagsOk, Blocks, BlockStart, BlockEnd, Fold, Passing;
    forall a | 0 <= a < |aggs| ensures PartialOk(aggs[a], terms, rows, partial[a], t, n, b + 1) {
      SkippedIsEmpty(skip, terms, rows, aggs[a].column, b);
      assert PartialOk(aggs[a], terms, rows, partial[a], t, n, b);
      var s := Stripe(terms, rows, aggs[a].column, t, n, b);
      assert s + [] == s;
    }
  }

  /** Folds one block's qualifying rows into every aggregate's accumulator. */
  method VisitBlock(table: TableColumns, aggs: seq<VecAggregate>, terms: seq<Term>, partial: seq<Acc>, b: nat, ghost t: nat, ghost n: nat,
                    ghost schema: Schema, ghost rows: seq<Row>) returns (out: seq<Acc>)
    requires TableOk(table, schema, rows) && t < n && b < Blocks(|rows|) && b % n == t
    requires |partial| == |aggs| && forall a :: 0 <= a < |aggs| ==> PartialOk(aggs[a], terms, rows, partial[a], t, n, b)
    ensures |out| == |aggs| && forall a :: 0 <= a < |aggs| ==> PartialOk(aggs[a], terms, rows, out[a], t, n, b + 1)
  {
    hide TableOk, Blocks, BlockEnd, BlockStart, RowPasses, Stripe, Fold, Passing, AllUpTo;
    TableRows(table, schema, rows);
    BlockBounds(b, |rows|);
    var start, end := BlockStart(b), BlockEnd(b, table.rows);
    out := partial;
    VisitStart(aggs, terms, rows, partial, b, t, n);
    var r := start;
    while r < end
      invariant start <= r <= end && |out| == |aggs|
      invariant AllUpTo(aggs, terms, rows, out, b, t, n, r, |aggs|)
    {
      var ok := RowQualifies(terms, table, r, schema, rows);
      if ok {
        out := AccumulateAll(table, aggs, terms, out, b, r, t, n, schema, rows);
      } else {
        RowSkipped(aggs, terms, rows, out, b, t, n, r);
      }
      r := r + 1;
    }
    VisitEnd(aggs, terms, rows, out, b, t, n);
  }

  /** The first `upTo` accumulators cover the worker's blocks below b and, of block b, the rows below r. */
  ghost predicate AllUpTo(aggs: seq<VecAggregate>, terms: seq<Term>, rows: seq<Row>, out: seq<Acc>, b: nat, t: nat, n: nat, r: nat, upTo: nat)
    requires t < n && b < Blocks(|rows|) && BlockStart(b) <= r <= |rows| && upTo <= |aggs| == |out|
  {
    forall a :: 0 <= a < upTo ==> UpTo(aggs[a], terms, rows, out[a], b, t, n, r)
  }

  ghost predicate UpTo(agg: VecAggregate, terms: seq<Term>, rows: seq<Row>, acc: Acc, b: nat, t: nat, n: nat, r: nat)
    requires t < n && b < Blocks(|rows|) && BlockStart(b) <= r <= |rows|
  {
    acc == Fold(agg.kind, Stripe(terms, rows, agg.column, t, n, b) + Passing(terms, rows, agg.column, BlockStart(b), r))
  }

  lemma VisitStart(aggs: seq<VecAggregate>, terms: seq<Term>, rows: seq<Row>, partial: seq<Acc>, b: nat, t: nat, n: nat)
    requires t < n && b < Blocks(|rows|) && BlockStart(b) <= |rows| && |partial| == |aggs|
    requires forall a :: 0 <= a < |aggs| ==> PartialOk(aggs[a], terms, rows, partial[a], t, n, b)
    ensures AllUpTo(aggs, terms, rows, partial, b, t, n, BlockStart(b), |aggs|)
  {
    hide Blocks, Stripe, Fold;
    forall a | 0 <= a < |aggs| ensures UpTo(aggs[a], terms, rows, partial[a], b, t, n, BlockStart(b)) {
      var s := Stripe(terms, rows, aggs[a].column, t, n, b);
      assert s + [] == s;
      assert PartialOk(aggs[a], terms, rows, partial[a], t, n, b);
    }
  }

  lemma VisitEnd(aggs: seq<VecAggregate>, terms: seq<Term>, rows: seq<Row>, out: seq<Acc>, b: nat, t: nat, n: nat)
    requires t < n && b < Blocks(|rows|) && b % n == t && BlockStart(b) <= BlockEnd(b, |rows|) <= |rows| && |out| == |aggs|
    requires AllUpTo(aggs, terms, rows, out, b, t, n, BlockEnd(b, |rows|), |aggs|)
    ensures forall a :: 0 <= a < |aggs| ==> PartialOk(aggs[a], terms, rows, out[a], t, n, b + 1)
  {
    hide Blocks, Fold, Passing, BlockStart, BlockEnd;
    forall a | 0 <= a < |aggs| ensures PartialOk(aggs[a], terms, rows, out[a], t, n, b + 1) {
      assert UpTo(aggs[a], terms, rows, out[a], b, t, n, BlockEnd(b, |rows|));
    }
  }

  lemma RowSkipped(aggs: seq<VecAggregate>, terms: seq<Term>, rows: seq<Row>, out: seq<Acc>, b: nat, t: nat, n: nat, r: nat)
    requires t < n && b < Blocks(|rows|) && BlockStart(b) <= r < |rows| && |out| == |aggs|
    requires AllUpTo(aggs, terms, rows, out, b, t, n, r, |aggs|) && !RowPasses(terms, rows[r])
    ensures AllUpTo(aggs, terms, rows, out, b, t, n, r + 1, |aggs|)
  {
    hide Blocks, Stripe, Fold, RowPasses;
    forall a | 0 <= a < |aggs| ensures UpTo(aggs[a], terms, rows, out[a], b, t, n, r + 1) {
      assert UpTo(aggs[a], terms, rows, out[a], b, t, n, r);
      assert Passing(terms, rows, aggs[a].column, BlockStart(b), r + 1) == Passing(terms, rows, aggs[a].column, BlockStart(b), r);
    }
  }

  method AccumulateAll(table: TableColumns, aggs: seq<VecAggregate>, ghost terms: seq<Term>, partial: seq<Acc>, ghost b: nat, r: nat,
                       ghost t: nat, ghost n: nat, ghost schema: Schema, ghost rows: seq<Row>) returns (out: seq<Acc>)
    requires TableOk(table, schema, rows) && t < n && b < Blocks(|rows|) && BlockStart(b) <= r < |rows| && |partial| == |aggs|
    requires AllUpTo(aggs, terms, rows, partial, b, t, n, r, |aggs|) && RowPasses(terms, rows[r])
    ensures |out| == |aggs| && AllUpTo(aggs, terms, rows, out, b, t, n, r + 1, |aggs|)
  {
    hide TableOk, Blocks, BlockStart, RowPasses, UpTo, AccumulateRow;
    TableRows(table, schema, rows);
    TableSized(table, schema, rows);
    out := partial;
    var a := 0;
    while a < |aggs|
      invariant 0 <= a <= |aggs| == |out|
      invariant forall i :: a <= i < |aggs| ==> out[i] == partial[i]
      invariant AllUpTo(aggs, terms, rows, out, b, t, n, r + 1, a)
    {
      assert UpTo(aggs[a], terms, rows, partial[a], b, t, n, r);
      AccumulatesCell(out[a], aggs[a], table, r, schema, rows);
      RowTaken(aggs[a], terms, rows, out[a], b, t, n, r);
      out := out[a := AccumulateRow(out[a], aggs[a], table, r)];
      a := a + 1;
    }
  }

  lemma RowTaken(agg: VecAggregate, terms: seq<Term>, rows: seq<Row>, acc: Acc, b: nat, t: nat, n: nat, r: nat)
    requires t < n && b < Blocks(|rows|) && BlockStart(b) <= r < |rows| && UpTo(agg, terms, rows, acc, b, t, n, r) && RowPasses(terms, rows[r])
    ensures UpTo(agg, terms, rows, AddValue(agg.kind, acc, Cell(rows[r], agg.column)), b, t, n, r + 1)
  {
    hide Blocks, Stripe, Fold, RowPasses, AddValue, Cell;
    var s, p, v := Stripe(terms, rows, agg.column, t, n, b), Passing(terms, rows, agg.column, BlockStart(b), r), Cell(rows[r], agg.column);
    FoldStep(agg.kind, s + p, v);
    assert s + Passing(terms, rows, agg.column, BlockStart(b), r + 1) == s + p + [v];
  }

  // ----- Merging the workers' results

  /** The first k workers' accumulators over the blocks below m, merged in worker order. */
  function Merged(kind: AggKind, terms: seq<Term>, rows: seq<Row>, c: int, k: nat, n: nat, m: nat): Acc
    requires 0 < k <= n && m <= Blocks(|rows|)
    decreases k
  {
    if k == 1 then Fold(kind, Stripe(terms, rows, c, 0, n, m))
    else MergePartial(kind, Merged(kind, terms, rows, c, k - 1, n, m), Fold(kind, Stripe(terms, rows, c, k - 1, n, m)))
  }

  lemma {:induction false} StripeOfKind(terms: seq<Term>, schema: Schema, rows: seq<Row>, c: int, t: nat, n: nat, m: nat)
    requires Conforms(schema, rows) && t < n && m <= Blocks(|rows|)
    ensures AllOfKind(ColumnKind(schema, c), Stripe(terms, rows, c, t, n, m))
    decreases m
  {
    hide Blocks, BlockStart, BlockEnd, Passing, Conforms;
    if m > 0 {
      StripeOfKind(terms, schema, rows, c, t, n, m - 1);
      BlockBounds(m - 1, |rows|);
      PassingOfKind(terms, schema, rows, c, BlockStart(m - 1), BlockEnd(m - 1, |rows|));
    }
  }

  function ColumnKind(schema: Schema, c: int): Kind {
    if 0 <= c < |schema| then schema[c] else KInt
  }

  lemma {:induction false} MergedOk(kind: AggKind, terms: seq<Term>, schema: Schema, rows: seq<Row>, c: int, k: nat, n: nat, m: nat)
    requires Conforms(schema, rows) && 0 < k <= n && m <= Blocks(|rows|)
    ensures AccOk(kind, ColumnKind(schema, c), Merged(kind, terms, rows, c, k, n, m))
    decreases k
  {
    hide Blocks, Stripe, Fold, MergePartial, AccOk, AllOfKind, Conforms;
    var kk := ColumnKind(schema, c);
    StripeOfKind(terms, schema, rows, c, k - 1, n, m);
    FoldOk(kind, kk, Stripe(terms, rows, c, k - 1, n, m));
    if k > 1 {
      MergedOk(kind, terms, schema, rows, c, k - 1, n, m);
      MergeSwap(kind, kk, Merged(kind, terms, rows, c, k - 1, n, m), Fold(kind, Stripe(terms, rows, c, k - 1, n, m)));
    }
  }

  /** One more block: it enters the merge once, through the worker it belongs to. */
  lemma {:induction false} BlockEntersOnce(kind: AggKind, terms: seq<Term>, schema: Schema, rows: seq<Row>, c: int, k: nat, n: nat, m: nat)
    requires Conforms(schema, rows) && 0 < k <= n && m < Blocks(|rows|)
    ensures Merged(kind, terms, rows, c, k, n, m + 1) ==
      if m % n < k then MergePartial(kind, Merged(kind, terms, rows, c, k, n, m), Fold(kind, BlockCells(terms, rows, c, m)))
      else Merged(kind, terms, rows, c, k, n, m)
    decreases k
  {
    hide Blocks, Fold, MergePartial, AccOk, AllOfKind, BlockCells, Conforms;
    var kk, cells := ColumnKind(schema, c), BlockCells(terms, rows, c, m);
    var s := Stripe(terms, rows, c, k - 1, n, m);
    StripeOfKind(terms, schema, rows, c, k - 1, n, m);
    CellsOfKind(terms, schema, rows, c, m);
    FoldOk(kind, kk, s);
    FoldOk(kind, kk, cells);
    FoldMerges(kind, kk, s, cells);
    assert s + [] == s;
    if k > 1 {
      var before := Merged(kind, terms, rows, c, k - 1, n, m);
      BlockEntersOnce(kind, terms, schema, rows, c, k - 1, n, m);
      MergedOk(kind, terms, schema, rows, c, k - 1, n, m);
      Rearrange(kind, kk, before, Fold(kind, s), Fold(kind, cells));
    }
  }

  lemma CellsOfKind(terms: seq<Term>, schema: Schema, rows: seq<Row>, c: int, m: nat)
    requires Conforms(schema, rows) && m < Blocks(|rows|)
    ensures AllOfKind(ColumnKind(schema, c), BlockCells(terms, rows, c, m))
  {
    hide Blocks, BlockStart, BlockEnd, Passing, Conforms;
    BlockBounds(m, |rows|);
    PassingOfKind(terms, schema, rows, c, BlockStart(m), BlockEnd(m, |rows|));
  }

  lemma Rearrange(kind: AggKind, k: Kind, a: Acc, s: Acc, x: Acc)
    requires AccOk(kind, k, a) && AccOk(kind, k, s) && AccOk(kind, k, x)
    ensures MergePartial(kind, a, MergePartial(kind, s, x)) == MergePartial(kind, MergePartial(kind, a, s), x)
    ensures MergePartial(kind, MergePartial(kind, a, x), s) == MergePartial(kind, MergePartial(kind, a, s), x)
  {
    hide MergePartial, AccOk;
    MergeAssociative(kind, k, a, s, x);
    MergeAssociative(kind, k, a, x, s);
    MergeSwap(kind, k, s, x);
  }

  /** Merged over all workers, the stripes are the qualifying rows of the whole table. */
  lemma {:induction false} StripesCoverTable(kind: AggKind, terms: seq<Term>, schema: Schema, rows: seq<Row>, c: int, n: nat, m: nat)
    requires Conforms(schema, rows) && 0 < n && m <= Blocks(|rows|)
    ensures BlocksEnd(m, |rows|) <= |rows|
    ensures Merged(kind, terms, rows, c, n, n, m) == Fold(kind, Passing(terms, rows, c, 0, BlocksEnd(m, |rows|)))
    decreases m
  {
    hide Blocks, Fold, MergePartial, AllOfKind, Passing, BlockStart, BlockEnd, Conforms;
    if m == 0 {
      EmptyMerge(kind, terms, rows, c, n, n);
      NothingYet(kind, terms, rows, c);
      BlocksCover(|rows|);
    } else {
      var kk, lo, hi := ColumnKind(schema, c), BlocksEnd(m - 1, |rows|), BlocksEnd(m, |rows|);
      StripesCoverTable(kind, terms, schema, rows, c, n, m - 1);
      assert (m - 1) % n < n;
      BlockEntersOnce(kind, terms, schema, rows, c, n, n, m - 1);
      BlockBounds(m - 1, |rows|);
      LastBlock(m - 1, |rows|);
      PassingSplits(terms, rows, c, 0, lo, hi);
      PassingOfKind(terms, schema, rows, c, 0, lo);
      CellsOfKind(terms, schema, rows, c, m - 1);
      FoldMerges(kind, kk, Passing(terms, rows, c, 0, lo), BlockCells(terms, rows, c, m - 1));
    }
  }

  /** Where the first m blocks end. */
  function BlocksEnd(m: nat, rows: nat): nat {
    if m == 0 then 0 else BlockEnd(m - 1, rows)
  }

  lemma LastBlock(b: nat, rows: nat)
    requires b < Blocks(rows)
    ensures BlocksEnd(b, rows) == BlockStart(b)
  {
  }

  lemma {:induction false} EmptyMerge(kind: AggKind, terms: seq<Term>, rows: seq<Row>, c: int, k: nat, n: nat)
    requires 0 < k <= n
    ensures Merged(kind, terms, rows, c, k, n, 0) == EMPTY
    decreases k
  {
    hide Blocks, MergePartial;
    MergeEmpty(kind, EMPTY);
    if k > 1 {
      EmptyMerge(kind, terms, rows, c, k - 1, n);
    }
  }

  /** Each worker fills its own row of the table of partial accumulators. Workers share no
      state, so running them one after another stands for running them together. */
  method ParallelColumnarAggregate(table: TableColumns, aggs: seq<VecAggregate>, terms: seq<Term>, numThreads: nat,
                                   ghost schema: Schema, ghost rows: seq<Row>)
    returns (out: seq<Value>, total: nat, skipped: nat)
    requires TableOk(table, schema, rows)
    ensures out == QueryResult(aggs, terms, rows)
    ensures total == Blocks(|rows|) && skipped <= total
  {
    hide TableOk, FlagsOk, Blocks, PartialOk, QueryResult;
    TableRows(table, schema, rows);
    BlocksCover(|rows|);
    total := Blocks(table.rows);
    var skip;
    skip, skipped := SkipFlags(table, terms, schema, rows);
    if total == 0 {
      out := EmptyResult(aggs, terms, rows);
      return;
    }
    var n := if numThreads == 0 then 1 else numThreads;
    n := if n < total then n else total;
    var partials: seq<seq<Acc>> := [];
    var t := 0;
    while t < n
      invariant 0 <= t == |partials| <= n
      invariant forall i :: 0 <= i < t ==> WorkerOk(aggs, terms, rows, partials[i], i, n)
    {
      var partial := Worker(table, aggs, terms, skip, t, n, schema, rows);
      partials := partials + [partial];
      t := t + 1;
    }
    out := MergeWorkers(aggs, terms, partials, n, schema, rows, table);
  }

  ghost predicate WorkerOk(aggs: seq<VecAggregate>, terms: seq<Term>, rows: seq<Row>, partial: seq<Acc>, t: nat, n: nat)
    requires t < n
  {
    |partial| == |aggs| && forall a :: 0 <= a < |aggs| ==> PartialOk(aggs[a], terms, rows, partial[a], t, n, Blocks(|rows|))
  }

  method EmptyResult(aggs: seq<VecAggregate>, ghost terms: seq<Term>, ghost rows: seq<Row>) returns (out: seq<Value>)
    requires |rows| == 0
    ensures out == QueryResult(aggs, terms, rows)
  {
    hide Fold, Finalize, Passing;
    out := [];
    var a := 0;
    while a < |aggs|
      invariant 0 <= a <= |aggs| && out == QueryResult(aggs, terms, rows)[..a]
    {
      NothingYet(aggs[a].kind, terms, rows, aggs[a].column);
      out := out + [Finalize(aggs[a].kind, EMPTY)];
      a := a + 1;
    }
  }

  method MergeWorkers(aggs: seq<VecAggregate>, ghost terms: seq<Term>, partials: seq<seq<Acc>>, n: nat,
                      ghost schema: Schema, ghost rows: seq<Row>, ghost table: TableColumns) returns (out: seq<Value>)
    requires TableOk(table, schema, rows) && 0 < n == |partials| && |rows| > 0
    requires forall t :: 0 <= t < n ==> WorkerOk(aggs, terms, rows, partials[t], t, n)
    ensures out == QueryResult(aggs, terms, rows)
  {
    hide TableOk, PartialOk, Blocks, Finalize, MergePartial, Fold, Passing, Stripe;
    out := [];
    var a := 0;
    while a < |aggs|
      invariant 0 <= a <= |aggs| && out == QueryResult(aggs, terms, rows)[..a]
    {
      var merged := MergeColumn(aggs, a, terms, partials, n, rows);
      RowsConform(table, schema, rows);
      AllBlocks(|rows|);
      StripesCoverTable(aggs[a].kind, terms, schema, rows, aggs[a].column, n, Blocks(|rows|));
      out := out + [Finalize(aggs[a].kind, merged)];
      a := a + 1;
    }
  }

  lemma RowsConform(table: TableColumns, schema: Schema, rows: seq<Row>)
    requires TableOk(table, schema, rows)
    ensures Conforms(schema, rows)
  {
  }

  lemma AllBlocks(rows: nat)
    requires rows > 0
    ensures Blocks(rows) > 0 && BlocksEnd(Blocks(rows), rows) == rows
  {
    BlockBounds(Blocks(rows) - 1, rows);
  }

  method MergeColumn(aggs: seq<VecAggregate>, a: nat, ghost terms: seq<Term>, partials: seq<seq<Acc>>, n: nat, ghost rows: seq<Row>)
    returns (merged: Acc)
    requires 0 < n == |partials| && a < |aggs| && forall t :: 0 <= t < n ==> WorkerOk(aggs, terms, rows, partials[t], t, n)
    ensures merged == Merged(aggs[a].kind, terms, rows, aggs[a].column, n, n, Blocks(|rows|))
  {
    hide Blocks, Fold, MergePartial, Stripe;
    assert WorkerOk(aggs, terms, rows, partials[0], 0, n);
    assert PartialOk(aggs[a], terms, rows, partials[0][a], 0, n, Blocks(|rows|));
    merged := partials[0][a];
    var t := 1;
    while t < n
      invariant 1 <= t <= n && merged == Merged(aggs[a].kind, terms, rows, aggs[a].column, t, n, Blocks(|rows|))
    {
      assert WorkerOk(aggs, terms, rows, partials[t], t, n);
      assert PartialOk(aggs[a], terms, rows, partials[t][a], t, n, Blocks(|rows|));
      merged := MergePartial(aggs[a].kind, merged, partials[t][a]);
      t := t + 1;
    }
  }

  // ----- From WHERE clauses

  function FlipOp(op: ComparisonOp): ComparisonOp {
    match op
    case Lt => Gt
    case Leq => Geq
    case Gt => Lt
    case Geq => Leq
    case _ => op
  }

  function LiteralValue(e: Expr): Value
    requires e.IsLiteral()
  {
    Eval(e, [], Functions((_, _) => Null, (_, _) => Null))
  }

  /** A WHERE clause as a conjunction of column-literal comparisons; none if it is not one. */
  function BuildVecPredicate(e: Expr): Option<seq<Term>> {
    match e
    case Logical(And, l, r) =>
      (match (BuildVecPredicate(l), BuildVecPredicate(r))
       case (Some(x), Some(y)) => Some(x + y)
       case _ => None)
    case Compare(op, l, r) =>
      if l.Column? && r.IsLiteral() then
        if l.index < 0 then None else Some([Term(l.index, op, LiteralValue(r))])
      else if r.Column? && l.IsLiteral() then
        if r.index < 0 then None else Some([Term(r.index, FlipOp(op), LiteralValue(l))])
      else None
    case _ => None
  }

  lemma {:induction false} PassesBoth(x: seq<Term>, y: seq<Term>, row: Row)
    ensures RowPasses(x + y, row) <==> RowPasses(x, row) && RowPasses(y, row)
  {
    hide TermHolds;
    if RowPasses(x + y, row) {
      forall i | 0 <= i < |x| ensures 0 <= x[i].column < |row| && TermHolds(x[i], row[x[i].column]) {
        assert (x + y)[i] == x[i];
      }
      forall i | 0 <= i < |y| ensures 0 <= y[i].column < |row| && TermHolds(y[i], row[y[i].column]) {
        assert (x + y)[|x| + i] == y[i];
      }
    }
  }

  lemma TermAlone(t: Term, row: Row)
    ensures RowPasses([t], row) <==> 0 <= t.column < |row| && TermHolds(t, row[t.column])
  {
    hide TermHolds;
    if RowPasses([t], row) {
      assert [t][0] == t;
    }
  }

  lemma LiteralAnywhere(e: Expr, row: Row, fns: Functions)
    requires e.IsLiteral()
    ensures Eval(e, row, fns) == LiteralValue(e)
  {
  }

  /** A column on the left: the term is the comparison. */
  lemma ColumnLeft(op: ComparisonOp, v: Value, lit: Value)
    ensures CompareWith(op, v, lit) == Bool(true) <==> TermHolds(Term(0, op, lit), v)
  {
    hide CompareValues;
  }

  /** A column on the right: the term has the operator turned round. */
  lemma ColumnRight(op: ComparisonOp, lit: Value, v: Value)
    ensures CompareWith(op, lit, v) == Bool(true) <==> TermHolds(Term(0, FlipOp(op), lit), v)
  {
    hide CompareValues;
    CompareSwap(lit, v);
  }

  lemma NullTerm(t: Term, op: ComparisonOp, lit: Value)
    ensures CompareWith(op, Null, lit) == Null && CompareWith(op, lit, Null) == Null
  {
  }

  lemma {:induction false} CompareIsTerm(e: Expr, row: Row, fns: Functions)
    requires e.Compare? && BuildVecPredicate(e).Some?
    ensures RowPasses(BuildVecPredicate(e).value, row) <==> Accepts(e, row, fns)
  {
    hide TermHolds, CompareWith, RowPasses;
    var t := BuildVecPredicate(e).value[0];
    assert BuildVecPredicate(e).value == [t];
    assert Eval(e, row, fns) == CompareWith(e.cop, Eval(e.left, row, fns), Eval(e.right, row, fns));
    TermAlone(t, row);
    NullTerm(t, e.cop, t.literal);
    if e.left.Column? && e.right.IsLiteral() {
      LiteralAnywhere(e.right, row, fns);
      if e.left.index < |row| {
        ColumnLeft(e.cop, row[e.left.index], t.literal);
        SameTerm(t, row[e.left.index]);
      }
    } else {
      LiteralAnywhere(e.left, row, fns);
      if e.right.index < |row| {
        ColumnRight(e.cop, t.literal, row[e.right.index]);
        SameTerm(t, row[e.right.index]);
      }
    }
  }

  lemma SameTerm(t: Term, v: Value)
    ensures TermHolds(t, v) == TermHolds(Term(0, t.op, t.literal), v)
  {
  }

  lemma BothAccept(l: Value, r: Value)
    ensures Connect(And, l, r) == Bool(true) <==> l == Bool(true) && r == Bool(true)
  {
  }

  /** The extracted terms accept exactly the rows the WHERE clause accepts. */
  lemma {:induction false} PredicateIsWhere(e: Expr, row: Row, fns: Functions)
    requires BuildVecPredicate(e).Some?
    ensures RowPasses(BuildVecPredicate(e).value, row) <==> Accepts(e, row, fns)
  {
    hide RowPasses, CompareWith;
    if e.Logical? {
      assert e.lop == And && Eval(e, row, fns) == Connect(And, Eval(e.left, row, fns), Eval(e.right, row, fns));
      PredicateIsWhere(e.left, row, fns);
      PredicateIsWhere(e.right, row, fns);
      PassesBoth(BuildVecPredicate(e.left).value, BuildVecPredicate(e.right).value, row);
      assert BuildVecPredicate(e).value == BuildVecPredicate(e.left).value + BuildVecPredicate(e.right).value;
      BothAccept(Eval(e.left, row, fns), Eval(e.right, row, fns));
    } else {
      CompareIsTerm(e, row, fns);
    }
  }

  lemma {:induction false} PassingIsFilter(e: Expr, rows: seq<Row>, c: int, n: nat, fns: Functions)
    requires BuildVecPredicate(e).Some? && n <= |rows|
    ensures Passing(BuildVecPredicate(e).value, rows, c, 0, n) == Cells(Filter(e, rows[..n], fns), c)
    decreases n
  {
    hide RowPasses, Accepts, BuildVecPredicate, Cell;
    if n > 0 {
      PassingIsFilter(e, rows, c, n - 1, fns);
      PredicateIsWhere(e, rows[n - 1], fns);
      assert rows[..n] == rows[..n - 1] + [rows[n - 1]];
      FilterAppend(e, rows[..n - 1], [rows[n - 1]], fns);
      assert Filter(e, [rows[n - 1]], fns) == if Accepts(e, rows[n - 1], fns) then [rows[n - 1]] else [];
    }
  }

  lemma {:induction false} FilterAppend(e: Expr, a: seq<Row>, b: seq<Row>, fns: Functions)
    ensures Filter(e, a + b, fns) == Filter(e, a, fns) + Filter(e, b, fns)
  {
    hide Accepts;
    if a == [] {
      assert a + b == b;
    } else {
      assert (a + b)[1..] == a[1..] + b;
      FilterAppend(e, a[1..], b, fns);
    }
  }

  /** The columnar plans return what filtering the rows with the WHERE clause and running the
      row engine's aggregates returns. */
  lemma QueryIsRowEngine(aggs: seq<VecAggregate>, e: Expr, rows: seq<Row>, fns: Functions, a: nat)
    requires BuildVecPredicate(e).Some? && a < |aggs|
    ensures QueryResult(aggs, BuildVecPredicate(e).value, rows)[a] == AggregateOf(aggs[a].kind, Cells(Filter(e, rows, fns), aggs[a].column))
  {
    hide BuildVecPredicate, AggregateOf, Filter, Passing;
    PassingIsFilter(e, rows, aggs[a].column, |rows|, fns);
    assert rows[..|rows|] == rows;
  }
}
