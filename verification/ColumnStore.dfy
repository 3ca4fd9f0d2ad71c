/** The columnar copy of a table: zone maps that let whole blocks be skipped, and the serial
    aggregation loop, against plain filtering of rows. */
module ColumnStore {
  import opened Values
  import opened SqlAst
  import opened Evaluator
  import opened Aggregates

  const BLOCK_ROWS: nat := 1024

  datatype Zone = NoValues | Range(min: Value, max: Value)

  /** A column's typed arrays; the ones of other types hold defaults. */
  datatype Column = Column(kind: Kind, ints: seq<int>, doubles: seq<real>, bools: seq<bool>, texts: seq<string>,
                           isNull: seq<bool>, zones: seq<Zone>)

  datatype TableColumns = TableColumns(columns: seq<Column>, rows: nat)

  datatype Term = Term(column: int, op: ComparisonOp, literal: Value)

  type Schema = seq<Kind>

  predicate Storable(k: Kind, v: Value) {
    k != KNull && OfKind(k, v)
  }

  ghost predicate Conforms(schema: Schema, rows: seq<Row>) {
    && (forall c :: 0 <= c < |schema| ==> schema[c] != KNull)
    && (forall r :: 0 <= r < |rows| ==> RowConforms(schema, rows[r]))
  }

  ghost predicate RowConforms(schema: Schema, row: Row) {
    |row| == |schema| && forall c :: 0 <= c < |schema| ==> OfKind(schema[c], row[c])
  }

  // ----- Building the columns

  predicate Sized(col: Column, n: nat) {
    |col.ints| == |col.doubles| == |col.bools| == |col.texts| == |col.isNull| == n
  }

  function ColumnValue(col: Column, r: nat): Value
    requires Sized(col, |col.isNull|) && r < |col.isNull|
  {
    if col.isNull[r] then Null
    else
      match col.kind
      case KInt => Int(col.ints[r])
      case KDouble => Double(col.doubles[r])
      case KBool => Bool(col.bools[r])
      case _ => Text(col.texts[r])
  }

  function AppendCell(col: Column, v: Value): Column {
    col.(ints := col.ints + [IntPart(v)],
         doubles := col.doubles + [DoublePart(v)],
         bools := col.bools + [v.Bool? && v.b],
         texts := col.texts + [if v.Text? then v.t else ""],
         isNull := col.isNull + [v.Null?])
  }

  /** Column c of the first n rows, its zones aside. */
  ghost predicate Holds(col: Column, k: Kind, rows: seq<Row>, c: nat, n: nat) {
    && n <= |rows| && Sized(col, n) && col.kind == k
    && forall r :: 0 <= r < n ==> HoldsCell(col, rows, c, r)
  }

  ghost predicate HoldsCell(col: Column, rows: seq<Row>, c: nat, r: nat)
    requires Sized(col, |col.isNull|) && r < |col.isNull| && r < |rows|
  {
    && ColumnValue(col, r) == Cell(rows[r], c)
    && col.ints[r] == IntPart(Cell(rows[r], c)) && col.doubles[r] == DoublePart(Cell(rows[r], c))
    && col.isNull[r] == Cell(rows[r], c).Null?
  }

  lemma AppendHolds(col: Column, k: Kind, rows: seq<Row>, c: nat, n: nat)
    requires Holds(col, k, rows, c, n) && n < |rows| && OfKind(k, Cell(rows[n], c)) && k != KNull
    ensures Holds(AppendCell(col, Cell(rows[n], c)), k, rows, c, n + 1)
  {
    hide Cell;
    var next := AppendCell(col, Cell(rows[n], c));
    forall r | 0 <= r < n + 1 ensures HoldsCell(next, rows, c, r) {
      if r < n {
        assert HoldsCell(col, rows, c, r);
      }
    }
  }

  lemma NoCells(k: Kind, c: nat, rows: seq<Row>)
    ensures Holds(Column.Column(k, [], [], [], [], [], []), k, rows, c, 0)
  {
  }

  method BuildColumn(k: Kind, c: nat, rows: seq<Row>) returns (col: Column)
    requires k != KNull && forall r :: 0 <= r < |rows| ==> OfKind(k, Cell(rows[r], c))
    ensures Holds(col, k, rows, c, |rows|)
    ensures |col.zones| == Blocks(|rows|) && forall b :: 0 <= b < |col.zones| ==> ZoneOk(col.zones[b], k, rows, c, BlockStart(b), BlockEnd(b, |rows|))
  {
    hide OfKind, ZoneOk, AppendCell, Cell, BlockStart, BlockEnd, Blocks, Holds;
    NoCells(k, c, rows);
    col := Column.Column(k, [], [], [], [], [], []);
    var r := 0;
    while r < |rows|
      invariant 0 <= r <= |rows| && Holds(col, k, rows, c, r)
    {
      AppendHolds(col, k, rows, c, r);
      col := AppendCell(col, Cell(rows[r], c));
      r := r + 1;
    }
    var zones := BuildZones(col, k, c, rows);
    WithZones(col, zones, k, rows, c);
    col := col.(zones := zones);
  }

  lemma WithZones(col: Column, zones: seq<Zone>, k: Kind, rows: seq<Row>, c: nat)
    requires Holds(col, k, rows, c, |rows|)
    ensures Holds(col.(zones := zones), k, rows, c, |rows|)
  {
    hide Cell;
    forall r | 0 <= r < |rows| ensures HoldsCell(col.(zones := zones), rows, c, r) {
      assert HoldsCell(col, rows, c, r);
    }
  }

  // ----- Blocks and zones

  function Blocks(rows: nat): nat {
    (rows + BLOCK_ROWS - 1) / BLOCK_ROWS
  }

  function BlockStart(b: nat): nat {
    b * BLOCK_ROWS
  }

  function BlockEnd(b: nat, rows: nat): nat {
    if BlockStart(b) + BLOCK_ROWS < rows then BlockStart(b) + BLOCK_ROWS else rows
  }

  lemma BlockBounds(b: nat, rows: nat)
    requires b < Blocks(rows)
    ensures BlockStart(b) < BlockEnd(b, rows) <= rows
    ensures b + 1 < Blocks(rows) ==> BlockEnd(b, rows) == BlockStart(b + 1)
    ensures b + 1 == Blocks(rows) ==> BlockEnd(b, rows) == rows
  {
  }

  /** In the value order, v does not come before w. */
  predicate AtLeast(v: Value, w: Value) {
    !ValueLess(v, w)
  }

  /** The zone bounds the non-null cells of rows lo..hi, and is empty if there are none. */
  ghost predicate ZoneOk(z: Zone, k: Kind, rows: seq<Row>, c: nat, lo: nat, hi: nat)
  {
    && (z.Range? ==> !z.min.Null? && !z.max.Null? && OfKind(k, z.min) && OfKind(k, z.max))
    && forall r :: lo <= r < hi && r < |rows| && !Cell(rows[r], c).Null? ==> InZone(z, Cell(rows[r], c))
  }

  predicate InZone(z: Zone, v: Value) {
    z.Range? && AtLeast(v, z.min) && AtLeast(z.max, v)
  }

  function Widen(z: Zone, v: Value): Zone {
    if z.NoValues? then Range(v, v)
    else
      Range(if Before(v, z.min) then v else z.min, if Before(z.max, v) then v else z.max)
  }

  predicate Before(v: Value, w: Value) {
    CompareValues(v, w).Some? && CompareValues(v, w).value < 0
  }

  lemma BeforeIsLess(k: Kind, v: Value, w: Value)
    requires OfKind(k, v) && OfKind(k, w) && !v.Null? && !w.Null?
    ensures Before(v, w) <==> ValueLess(v, w)
  {
  }

  lemma WidenOk(z: Zone, k: Kind, rows: seq<Row>, c: nat, lo: nat, r: nat)
    requires ZoneOk(z, k, rows, c, lo, r) && lo <= r < |rows| && forall i :: 0 <= i < |rows| ==> OfKind(k, Cell(rows[i], c))
    ensures ZoneOk(if Cell(rows[r], c).Null? then z else Widen(z, Cell(rows[r], c)), k, rows, c, lo, r + 1)
  {
    hide Cell, ValueLess, CompareValues, OfKind;
    var v := Cell(rows[r], c);
    if !v.Null? {
      var w := Widen(z, v);
      WidenHolds(z, k, v, v);
      forall i | lo <= i < r + 1 && i < |rows| && !Cell(rows[i], c).Null? ensures InZone(w, Cell(rows[i], c)) {
        if i < r {
          WidenKeeps(z, k, v, Cell(rows[i], c));
        }
      }
    }
  }

  lemma WidenHolds(z: Zone, k: Kind, v: Value, u: Value)
    requires (z.Range? ==> !z.min.Null? && !z.max.Null? && OfKind(k, z.min) && OfKind(k, z.max)) && OfKind(k, v) && !v.Null?
    ensures InZone(Widen(z, v), v)
    ensures !Widen(z, v).min.Null? && !Widen(z, v).max.Null? && OfKind(k, Widen(z, v).min) && OfKind(k, Widen(z, v).max)
  {
    hide ValueLess, OfKind, Before;
    ValueLessTotal(k, v, v);
    if z.Range? {
      BeforeIsLess(k, v, z.min);
      BeforeIsLess(k, z.max, v);
      ValueLessTotal(k, v, z.min);
      ValueLessTotal(k, z.max, v);
    }
  }

  lemma WidenKeeps(z: Zone, k: Kind, v: Value, u: Value)
    requires z.Range? && !z.min.Null? && !z.max.Null? && OfKind(k, z.min) && OfKind(k, z.max) && OfKind(k, v) && !v.Null?
    requires InZone(z, u) && OfKind(k, u) && !u.Null?
    ensures InZone(Widen(z, v), u)
  {
    hide ValueLess, OfKind, Before;
    BeforeIsLess(k, v, z.min);
    BeforeIsLess(k, z.max, v);
    if ValueLess(v, z.min) && ValueLess(u, v) {
      ValueLessTransitive(k, u, v, z.min);
    }
    if ValueLess(z.max, v) && ValueLess(v, u) {
      ValueLessTransitive(k, z.max, v, u);
    }
  }

  method BuildZones(col: Column, k: Kind, c: nat, rows: seq<Row>) returns (zones: seq<Zone>)
    requires Holds(col, k, rows, c, |rows|) && forall r :: 0 <= r < |rows| ==> OfKind(k, Cell(rows[r], c))
    ensures |zones| == Blocks(|rows|)
    ensures forall b :: 0 <= b < |zones| ==> ZoneOk(zones[b], k, rows, c, BlockStart(b), BlockEnd(b, |rows|))
  {
    hide ZoneOk, BlockStart, BlockEnd, OfKind, Cell, Holds;
    zones := [];
    var b := 0;
    while b < Blocks(|rows|)
      invariant 0 <= b == |zones| <= Blocks(|rows|)
      invariant forall i :: 0 <= i < b ==> ZoneOk(zones[i], k, rows, c, BlockStart(i), BlockEnd(i, |rows|))
    {
      BlockBounds(b, |rows|);
      var z := BuildZone(col, k, c, rows, BlockStart(b), BlockEnd(b, |rows|));
      zones := zones + [z];
      b := b + 1;
    }
  }

  method BuildZone(col: Column, k: Kind, c: nat, rows: seq<Row>, start: nat, end: nat) returns (z: Zone)
    requires Holds(col, k, rows, c, |rows|) && forall r :: 0 <= r < |rows| ==> OfKind(k, Cell(rows[r], c))
    requires start <= end <= |rows|
    ensures ZoneOk(z, k, rows, c, start, end) && ZoneTight(z, rows, c, start, end)
  {
    hide OfKind, Cell, ColumnValue, Widen, ZoneOk, ZoneTight;
    z := NoValues;
    NoRows(k, rows, c, start);
    var r := start;
    while r < end
      invariant start <= r <= end && ZoneOk(z, k, rows, c, start, r) && ZoneTight(z, rows, c, start, r)
    {
      assert HoldsCell(col, rows, c, r);
      WidenOk(z, k, rows, c, start, r);
      WidenTight(z, rows, c, start, r);
      if !col.isNull[r] {
        z := Widen(z, ColumnValue(col, r));
      }
      r := r + 1;
    }
  }

  lemma NoRows(k: Kind, rows: seq<Row>, c: nat, lo: nat)
    ensures ZoneOk(NoValues, k, rows, c, lo, lo) && ZoneTight(NoValues, rows, c, lo, lo)
  {
  }

  ghost predicate CellIn(v: Value, rows: seq<Row>, c: nat, lo: nat, hi: nat) {
    exists r :: lo <= r < hi && r < |rows| && Cell(rows[r], c) == v
  }

  /** The ends of a zone are cells of its block; without values the block has NULLs only. */
  ghost predicate ZoneTight(z: Zone, rows: seq<Row>, c: nat, lo: nat, hi: nat) {
    if z.Range? then CellIn(z.min, rows, c, lo, hi) && CellIn(z.max, rows, c, lo, hi)
    else forall r :: lo <= r < hi && r < |rows| ==> Cell(rows[r], c).Null?
  }

  lemma WidenTight(z: Zone, rows: seq<Row>, c: nat, lo: nat, r: nat)
    requires lo <= r < |rows| && ZoneTight(z, rows, c, lo, r)
    ensures var v := Cell(rows[r], c);
      ZoneTight(if v.Null? then z else Widen(z, v), rows, c, lo, r + 1)
  {
    hide Cell, Before;
    var v := Cell(rows[r], c);
    assert CellIn(v, rows, c, lo, r + 1);
    forall w | CellIn(w, rows, c, lo, r) ensures CellIn(w, rows, c, lo, r + 1) {
      var i :| lo <= i < r && i < |rows| && Cell(rows[i], c) == w;
    }
  }

  // ----- Predicates

  /** A row's cell satisfies the term; a comparison with NULL or another type never does. */
  predicate TermHolds(t: Term, v: Value) {
    match CompareValues(v, t.literal)
    case None => false
    case Some(c) => Evaluator.Holds(t.op, c)
  }

  predicate RowPasses(terms: seq<Term>, row: Row) {
    forall i :: 0 <= i < |terms| ==> 0 <= terms[i].column < |row| && TermHolds(terms[i], row[terms[i].column])
  }

  /** The zone proves that no cell in it satisfies the term. */
  predicate BlockExcludes(t: Term, z: Zone) {
    if z.NoValues? then true
    else
      match (CompareValues(t.literal, z.min), CompareValues(t.literal, z.max))
      case (Some(lMin), Some(lMax)) =>
        (match t.op
         case Eq => lMin < 0 || lMax > 0
         case Lt => lMin <= 0
         case Leq => lMin < 0
         case Gt => lMax >= 0
         case Geq => lMax > 0
         case Neq => CompareValues(z.min, z.max) == Some(0) && lMin == 0)
      case _ => false
  }

  // Comparison is consistent across the two numeric types.

  lemma CompareSwap(a: Value, b: Value)
    ensures CompareValues(b, a) == (match CompareValues(a, b) case None => None case Some(c) => Some(-c))
  {
    if a.Text? && b.Text? {
      CompareTextSwap(a.t, b.t);
    }
  }

  /** If a <= b and b <= c, with one strict if asked, then a <= c, as strictly. */
  lemma CompareChain(a: Value, b: Value, c: Value)
    requires CompareValues(a, b).Some? && CompareValues(b, c).Some?
    requires CompareValues(a, b).value <= 0 && CompareValues(b, c).value <= 0
    ensures CompareValues(a, c).Some? && CompareValues(a, c).value <= 0
    ensures CompareValues(a, b).value < 0 || CompareValues(b, c).value < 0 ==> CompareValues(a, c).value < 0
    ensures CompareValues(a, b).value == 0 && CompareValues(b, c).value == 0 ==> CompareValues(a, c).value == 0
  {
    if a.Text? {
      CompareTextZero(a.t, b.t);
      CompareTextZero(b.t, c.t);
      if CompareText(a.t, b.t) < 0 && CompareText(b.t, c.t) < 0 {
        CompareTextTransitive(a.t, b.t, c.t);
      }
    }
  }

  /** Two values of one kind in order compare that way. */
  lemma AtLeastCompares(k: Kind, v: Value, w: Value)
    requires OfKind(k, v) && OfKind(k, w) && !v.Null? && !w.Null? && AtLeast(v, w)
    ensures CompareValues(w, v).Some? && CompareValues(w, v).value <= 0
  {
    CompareSwap(v, w);
  }

  /** Skipping is sound: an excluded zone holds no cell that satisfies the term. */
  lemma ExcludedFails(t: Term, z: Zone, k: Kind, v: Value)
    requires BlockExcludes(t, z) && OfKind(k, v)
    requires z.Range? ==> !z.min.Null? && !z.max.Null? && OfKind(k, z.min) && OfKind(k, z.max)
    requires v.Null? || InZone(z, v)
    ensures !TermHolds(t, v)
  {
    hide CompareValues, OfKind, AtLeast;
    if v.Null? {
      NullCompares(v, t.literal);
    } else if CompareValues(v, t.literal).Some? {
      AtLeastCompares(k, v, z.min);
      AtLeastCompares(k, z.max, v);
      CompareSwap(v, t.literal);
      CompareSwap(t.literal, z.min);
      CompareSwap(t.literal, z.max);
      ZoneCompares(t.literal, z.min, z.max, v);
    }
  }

  /** And it misses no chance: next to a literal that compares with its ends, a zone is excluded
      exactly if no value between the ends could satisfy the term. */
  lemma ExcludesExactly(t: Term, min: Value, max: Value)
    requires CompareValues(min, max).Some? && CompareValues(min, max).value <= 0
    requires CompareValues(t.literal, min).Some? && CompareValues(t.literal, max).Some?
    ensures BlockExcludes(t, Range(min, max)) <==> forall v :: Between(min, v, max) ==> !TermHolds(t, v)
  {
    var l := t.literal;
    CompareSame(min);
    CompareSame(max);
    CompareSame(l);
    hide CompareValues;
    CompareSwap(min, max);
    CompareSwap(l, min);
    CompareSwap(l, max);
    assert Between(min, min, max) && Between(min, max, max);
    if BlockExcludes(t, Range(min, max)) {
      forall v | Between(min, v, max) ensures !TermHolds(t, v) {
        if CompareValues(v, l).Some? {
          CompareSwap(v, l);
          ZoneCompares(l, min, max, v);
        }
      }
    } else if t.op == Eq {
      assert Between(min, l, max);
      assert TermHolds(t, l);
    } else if t.op == Neq && CompareValues(l, min).value == 0 {
      if CompareValues(l, max).value == 0 {
        EqualEnds(l, min, max);
      }
      assert TermHolds(t, max);
    } else if t.op == Gt || t.op == Geq {
      assert TermHolds(t, max);
    } else {
      assert TermHolds(t, min);
    }
  }

  predicate Between(min: Value, v: Value, max: Value) {
    && CompareValues(min, v).Some? && CompareValues(min, v).value <= 0
    && CompareValues(v, max).Some? && CompareValues(v, max).value <= 0
  }

  lemma CompareSame(v: Value)
    requires !v.Null?
    ensures CompareValues(v, v) == Some(0)
  {
    if v.Text? {
      CompareTextZero(v.t, v.t);
    }
  }

  lemma EqualEnds(l: Value, min: Value, max: Value)
    requires CompareValues(min, l) == Some(0) && CompareValues(l, max) == Some(0)
    ensures CompareValues(min, max) == Some(0)
  {
    if l.Text? {
      CompareTextZero(min.t, l.t);
      CompareTextZero(l.t, max.t);
    }
  }

  lemma NullCompares(v: Value, w: Value)
    requires v.Null?
    ensures CompareValues(v, w) == None
  {
  }

  /** Where a literal stands to the ends of a zone decides where it can stand to its cells. */
  lemma ZoneCompares(l: Value, min: Value, max: Value, v: Value)
    requires CompareValues(min, v).Some? && CompareValues(min, v).value <= 0
    requires CompareValues(v, max).Some? && CompareValues(v, max).value <= 0
    requires CompareValues(l, v).Some? && CompareValues(v, l).Some? && CompareValues(v, l).value == -CompareValues(l, v).value
    requires CompareValues(l, min).Some? && CompareValues(min, l) == Some(-CompareValues(l, min).value)
    requires CompareValues(l, max).Some? && CompareValues(max, l) == Some(-CompareValues(l, max).value)
    ensures CompareValues(l, min).value < 0 ==> CompareValues(l, v).value < 0
    ensures CompareValues(l, min).value <= 0 ==> CompareValues(l, v).value <= 0
    ensures CompareValues(l, max).value > 0 ==> CompareValues(l, v).value > 0
    ensures CompareValues(l, max).value >= 0 ==> CompareValues(l, v).value >= 0
    ensures CompareValues(min, max) == Some(0) && CompareValues(l, min).value == 0 ==> CompareValues(l, v).value == 0
  {
    hide CompareValues;
    if CompareValues(l, min).value <= 0 {
      CompareChain(l, min, v);
    }
    if CompareValues(l, max).value >= 0 {
      CompareChain(v, max, l);
    }
    if CompareValues(min, max) == Some(0) && CompareValues(l, min).value == 0 {
      CompareChain(l, min, max);
    }
  }

  // ----- Tables

  ghost predicate TableOk(table: TableColumns, schema: Schema, rows: seq<Row>) {
    && Conforms(schema, rows) && table.rows == |rows| && |table.columns| == |schema|
    && forall c :: 0 <= c < |schema| ==> ColumnOk(table.columns[c], schema[c], rows, c)
  }

  ghost predicate ColumnOk(col: Column, k: Kind, rows: seq<Row>, c: nat) {
    && Holds(col, k, rows, c, |rows|) && |col.zones| == Blocks(|rows|)
    && forall b :: 0 <= b < |col.zones| ==> ZoneOk(col.zones[b], k, rows, c, BlockStart(b), BlockEnd(b, |rows|))
  }

  /** The columnar copy of a table's rows. */
  method Build(schema: Schema, rows: seq<Row>) returns (table: TableColumns)
    requires Conforms(schema, rows)
    ensures TableOk(table, schema, rows)
  {
    hide ColumnOk, OfKind;
    var columns := [];
    var c := 0;
    while c < |schema|
      invariant 0 <= c == |columns| <= |schema|
      invariant forall i :: 0 <= i < c ==> ColumnOk(columns[i], schema[i], rows, i)
    {
      assert forall r :: 0 <= r < |rows| ==> RowConforms(schema, rows[r]);
      var col := BuildColumn(schema[c], c, rows);
      ColumnBuilt(col, schema[c], rows, c);
      columns := columns + [col];
      c := c + 1;
    }
    table := TableColumns(columns, |rows|);
  }

  lemma ColumnBuilt(col: Column, k: Kind, rows: seq<Row>, c: nat)
    requires Holds(col, k, rows, c, |rows|) && |col.zones| == Blocks(|rows|)
    requires forall b :: 0 <= b < |col.zones| ==> ZoneOk(col.zones[b], k, rows, c, BlockStart(b), BlockEnd(b, |rows|))
    ensures ColumnOk(col, k, rows, c)
  {
    hide Holds, ZoneOk;
  }

  // ----- Skipping blocks and filtering rows

  ghost predicate ZoneExcludes(t: Term, table: TableColumns, b: nat) {
    && 0 <= t.column < |table.columns| && b < |table.columns[t.column].zones|
    && BlockExcludes(t, table.columns[t.column].zones[b])
  }

  /** Whether some term's zone rules the whole block out. */
  method BlockSkippable(terms: seq<Term>, table: TableColumns, b: nat, ghost schema: Schema, ghost rows: seq<Row>)
    returns (skip: bool)
    requires TableOk(table, schema, rows) && b < Blocks(|rows|)
    ensures skip ==> forall r :: BlockStart(b) <= r < BlockEnd(b, |rows|) ==> !RowPasses(terms, rows[r])
    ensures skip <==> exists i :: 0 <= i < |terms| && ZoneExcludes(terms[i], table, b)
  {
    hide ColumnOk, BlockExcludes, RowPasses, Blocks, BlockEnd;
    BlockBounds(b, |rows|);
    var i := 0;
    while i < |terms|
      invariant 0 <= i <= |terms| && forall j :: 0 <= j < i ==> !ZoneExcludes(terms[j], table, b)
    {
      var t := terms[i];
      if 0 <= t.column < |table.columns| {
        ghost var c := t.column;
        assert ColumnOk(table.columns[c], schema[c], rows, c);
        ZoneAt(table.columns[c], schema[c], rows, c, b);
        if BlockExcludes(t, table.columns[t.column].zones[b]) {
          forall r | BlockStart(b) <= r < BlockEnd(b, |rows|) ensures !RowPasses(terms, rows[r]) {
            TermRulesOut(terms, i, table.columns[c].zones[b], schema, rows, b, r);
          }
          return true;
        }
      }
      i := i + 1;
    }
    skip := false;
  }

  lemma ZoneAt(col: Column, k: Kind, rows: seq<Row>, c: nat, b: nat)
    requires ColumnOk(col, k, rows, c) && b < Blocks(|rows|)
    ensures b < |col.zones| && ZoneOk(col.zones[b], k, rows, c, BlockStart(b), BlockEnd(b, |rows|))
  {
    hide Holds, ZoneOk, Blocks;
  }

  lemma TermRulesOut(terms: seq<Term>, i: nat, z: Zone, schema: Schema, rows: seq<Row>, b: nat, r: nat)
    requires Conforms(schema, rows) && i < |terms| && 0 <= terms[i].column < |schema| && b < Blocks(|rows|)
    requires ZoneOk(z, schema[terms[i].column], rows, terms[i].column, BlockStart(b), BlockEnd(b, |rows|))
    requires BlockExcludes(terms[i], z) && BlockStart(b) <= r < BlockEnd(b, |rows|) && r < |rows|
    ensures !RowPasses(terms, rows[r])
  {
    hide BlockExcludes, TermHolds, OfKind, InZone;
    var c := terms[i].column;
    assert RowConforms(schema, rows[r]);
    ExcludedFails(terms[i], z, schema[c], rows[r][c]);
  }

  /** All terms of the predicate, tried on a row's columns in order. */
  method RowQualifies(terms: seq<Term>, table: TableColumns, r: nat, ghost schema: Schema, ghost rows: seq<Row>)
    returns (ok: bool)
    requires TableOk(table, schema, rows) && r < |rows|
    ensures ok == RowPasses(terms, rows[r])
  {
    hide TermHolds, ColumnValue, ColumnOk, OfKind;
    assert RowConforms(schema, rows[r]);
    var i := 0;
    while i < |terms|
      invariant 0 <= i <= |terms|
      invariant forall j :: 0 <= j < i ==> 0 <= terms[j].column < |schema| && TermHolds(terms[j], rows[r][terms[j].column])
    {
      var t := terms[i];
      if t.column < 0 || t.column >= |table.columns| {
        return false;
      }
      var col := table.columns[t.column];
      assert ColumnOk(col, schema[t.column], rows, t.column);
      CellAt(col, schema[t.column], rows, t.column, r);
      if col.isNull[r] || !TermHolds(t, ColumnValue(col, r)) {
        NullFails(t, rows[r][t.column]);
        return false;
      }
      i := i + 1;
    }
    ok := true;
  }

  lemma CellAt(col: Column, k: Kind, rows: seq<Row>, c: nat, r: nat)
    requires ColumnOk(col, k, rows, c) && r < |rows|
    ensures Sized(col, |rows|) && col.kind == k && HoldsCell(col, rows, c, r)
  {
  }

  lemma NullFails(t: Term, v: Value)
    ensures v.Null? ==> !TermHolds(t, v)
  {
  }

  /** Column c's cells of the qualifying rows among lo..hi. */
  function Passing(terms: seq<Term>, rows: seq<Row>, c: int, lo: nat, hi: nat): seq<Value>
    requires lo <= hi <= |rows|
    decreases hi
  {
    if lo == hi then []
    else Passing(terms, rows, c, lo, hi - 1) + (if RowPasses(terms, rows[hi - 1]) then [Cell(rows[hi - 1], c)] else [])
  }

  lemma {:induction false} PassingSplits(terms: seq<Term>, rows: seq<Row>, c: int, lo: nat, mid: nat, hi: nat)
    requires lo <= mid <= hi <= |rows|
    ensures Passing(terms, rows, c, lo, hi) == Passing(terms, rows, c, lo, mid) + Passing(terms, rows, c, mid, hi)
    decreases hi
  {
    hide RowPasses, Cell;
    if mid < hi {
      PassingSplits(terms, rows, c, lo, mid, hi - 1);
    }
  }

  lemma {:induction false} NonePass(terms: seq<Term>, rows: seq<Row>, c: int, lo: nat, hi: nat)
    requires lo <= hi <= |rows| && forall r :: lo <= r < hi ==> !RowPasses(terms, rows[r])
    ensures Passing(terms, rows, c, lo, hi) == []
    decreases hi
  {
    hide RowPasses;
    if lo < hi {
      NonePass(terms, rows, c, lo, hi - 1);
    }
  }

  lemma {:induction false} PassingOfKind(terms: seq<Term>, schema: Schema, rows: seq<Row>, c: int, lo: nat, hi: nat)
    requires lo <= hi <= |rows| && Conforms(schema, rows)
    ensures AllOfKind(if 0 <= c < |schema| then schema[c] else KInt, Passing(terms, rows, c, lo, hi))
    decreases hi
  {
    hide RowPasses;
    if lo < hi {
      PassingOfKind(terms, schema, rows, c, lo, hi - 1);
      assert RowConforms(schema, rows[hi - 1]);
    }
  }

  // ----- Accumulating

  datatype VecAggregate = VecAggregate(kind: AggKind, column: int)

  /** One row's contribution, read from the typed arrays. */
  function AccumulateRow(acc: Acc, agg: VecAggregate, table: TableColumns, r: nat): Acc
    requires forall c :: 0 <= c < |table.columns| ==> Sized(table.columns[c], table.rows)
    requires r < table.rows
  {
    if agg.kind == CountStar then acc.(count := acc.count + 1)
    else if agg.column < 0 || agg.column >= |table.columns| then acc
    else
      assert Sized(table.columns[agg.column], table.rows);
      AccumulateCell(acc, agg.kind, table.columns[agg.column], r)
  }

  function AccumulateCell(acc: Acc, kind: AggKind, col: Column, r: nat): Acc
    requires Sized(col, |col.isNull|) && r < |col.isNull|
  {
    if col.isNull[r] then acc
    else if kind == Sum || kind == Avg then
      if col.kind == KDouble then acc.(isFloat := true, dsum := acc.dsum + col.doubles[r], count := acc.count + 1)
      else acc.(isum := acc.isum + col.ints[r], count := acc.count + 1)
    else if kind == Min || kind == Max then
      var v := ColumnValue(col, r);
      if acc.best.None? || Better(kind, v, acc.best.value) then acc.(best := Some(v)) else acc
    else acc.(count := acc.count + 1)
  }

  lemma TableSized(table: TableColumns, schema: Schema, rows: seq<Row>)
    requires TableOk(table, schema, rows)
    ensures forall c :: 0 <= c < |table.columns| ==> Sized(table.columns[c], table.rows)
  {
    forall c | 0 <= c < |table.columns| ensures Sized(table.columns[c], table.rows) {
      assert ColumnOk(table.columns[c], schema[c], rows, c);
    }
  }

  lemma AccumulatesCell(acc: Acc, agg: VecAggregate, table: TableColumns, r: nat, schema: Schema, rows: seq<Row>)
    requires TableOk(table, schema, rows) && r < |rows|
    requires forall c :: 0 <= c < |table.columns| ==> Sized(table.columns[c], table.rows)
    ensures AccumulateRow(acc, agg, table, r) == AddValue(agg.kind, acc, Cell(rows[r], agg.column))
  {
    hide ColumnOk, ColumnValue, Better;
    assert RowConforms(schema, rows[r]);
    if 0 <= agg.column < |table.columns| {
      assert ColumnOk(table.columns[agg.column], schema[agg.column], rows, agg.column);
      CellAt(table.columns[agg.column], schema[agg.column], rows, agg.column, r);
    }
  }

  /** Which blocks the predicate prunes, and how many. */
  method SkipFlags(table: TableColumns, terms: seq<Term>, ghost schema: Schema, ghost rows: seq<Row>)
    returns (skip: seq<bool>, skipped: nat)
    requires TableOk(table, schema, rows)
    ensures |skip| == Blocks(|rows|) && skipped <= |skip| && FlagsOk(skip, terms, rows)
  {
    hide TableOk, RowPasses, BlockStart, BlockEnd, Blocks;
    skip := [];
    skipped := 0;
    TableRows(table, schema, rows);
    var b := 0;
    while b < Blocks(table.rows)
      invariant 0 <= b == |skip| <= Blocks(|rows|) && skipped <= b && FlagsOk(skip, terms, rows)
    {
      var s := BlockSkippable(terms, table, b, schema, rows);
      BlockBounds(b, |rows|);
      skip := skip + [s];
      skipped := skipped + if s then 1 else 0;
      b := b + 1;
    }
  }

  lemma TableRows(table: TableColumns, schema: Schema, rows: seq<Row>)
    requires TableOk(table, schema, rows)
    ensures table.rows == |rows|
  {
  }

  /** No skipped block holds a qualifying row. */
  ghost predicate FlagsOk(skip: seq<bool>, terms: seq<Term>, rows: seq<Row>) {
    && |skip| <= Blocks(|rows|)
    && forall b :: 0 <= b < |skip| && skip[b] ==> BlockEmpty(terms, rows, b)
  }

  ghost predicate BlockEmpty(terms: seq<Term>, rows: seq<Row>, b: nat) {
    forall r :: BlockStart(b) <= r < BlockEnd(b, |rows|) && r < |rows| ==> !RowPasses(terms, rows[r])
  }

  /** Folds one block's qualifying rows into an accumulator. */
  method ScanBlock(acc: Acc, agg: VecAggregate, table: TableColumns, terms: seq<Term>, start: nat, end: nat,
                   ghost before: seq<Value>, ghost schema: Schema, ghost rows: seq<Row>) returns (out: Acc)
    requires TableOk(table, schema, rows) && start <= end <= |rows| && acc == Fold(agg.kind, before)
    ensures out == Fold(agg.kind, before + Passing(terms, rows, agg.column, start, end))
  {
    hide TableOk, RowPasses, AccumulateRow, AddValue, Cell;
    TableRows(table, schema, rows);
    TableSized(table, schema, rows);
    out := acc;
    assert before + [] == before;
    var r := start;
    while r < end
      invariant start <= r <= end
      invariant out == Fold(agg.kind, before + Passing(terms, rows, agg.column, start, r))
    {
      ghost var vs := before + Passing(terms, rows, agg.column, start, r);
      var ok := RowQualifies(terms, table, r, schema, rows);
      if ok {
        AccumulatesCell(out, agg, table, r, schema, rows);
        out := AccumulateRow(out, agg, table, r);
        FoldStep(agg.kind, vs, Cell(rows[r], agg.column));
        assert before + Passing(terms, rows, agg.column, start, r + 1) == vs + [Cell(rows[r], agg.column)];
      } else {
        assert Passing(terms, rows, agg.column, start, r + 1) == Passing(terms, rows, agg.column, start, r);
      }
      r := r + 1;
    }
  }

  lemma FoldStep(kind: AggKind, vs: seq<Value>, v: Value)
    ensures Fold(kind, vs + [v]) == AddValue(kind, Fold(kind, vs), v)
  {
    hide AddValue;
    assert (vs + [v])[..|vs + [v]| - 1] == vs;
  }

  /** What an aggregate query returns: each aggregate over the qualifying rows. */
  ghost function QueryResult(aggs: seq<VecAggregate>, terms: seq<Term>, rows: seq<Row>): (out: seq<Value>)
    ensures |out| == |aggs|
  {
    seq(|aggs|, a requires 0 <= a < |aggs| => AggregateOf(aggs[a].kind, Passing(terms, rows, aggs[a].column, 0, |rows|)))
  }

  /** The serial loop: block by block, pruned blocks left out. */
  method ColumnarAggregate(table: TableColumns, aggs: seq<VecAggregate>, terms: seq<Term>, ghost schema: Schema, ghost rows: seq<Row>)
    returns (out: seq<Value>, total: nat, skipped: nat)
    requires TableOk(table, schema, rows)
    ensures out == QueryResult(aggs, terms, rows)
    ensures total == Blocks(|rows|) && skipped <= total
  {
    hide TableOk, FlagsOk, Passing, Fold, Finalize, Blocks;
    TableRows(table, schema, rows);
    total := Blocks(table.rows);
    var skip, n := SkipFlags(table, terms, schema, rows);
    skipped := n;
    out := [];
    var a := 0;
    while a < |aggs|
      invariant 0 <= a <= |aggs| && out == QueryResult(aggs, terms, rows)[..a]
    {
      var acc := AggregateBlocks(table, aggs[a], terms, skip, schema, rows);
      out := out + [Finalize(aggs[a].kind, acc)];
      a := a + 1;
    }
  }

  method AggregateBlocks(table: TableColumns, agg: VecAggregate, terms: seq<Term>, skip: seq<bool>, ghost schema: Schema, ghost rows: seq<Row>)
    returns (acc: Acc)
    requires TableOk(table, schema, rows) && |skip| == Blocks(|rows|) && FlagsOk(skip, terms, rows)
    ensures acc == Fold(agg.kind, Passing(terms, rows, agg.column, 0, |rows|))
  {
    hide TableOk, FlagsOk, Passing, Fold, Blocks, BlockStart, BlockEnd;
    TableRows(table, schema, rows);
    acc := EMPTY;
    NothingYet(agg.kind, terms, rows, agg.column);
    ghost var done := 0;
    BlocksCover(|rows|);
    var b := 0;
    while b < Blocks(table.rows)
      invariant 0 <= b <= Blocks(|rows|) && done <= |rows|
      invariant done == if b < Blocks(|rows|) then BlockStart(b) else |rows|
      invariant acc == Fold(agg.kind, Passing(terms, rows, agg.column, 0, done))
    {
      BlockBounds(b, |rows|);
      ghost var end := BlockEnd(b, |rows|);
      PassingSplits(terms, rows, agg.column, 0, done, end);
      if !skip[b] {
        acc := ScanBlock(acc, agg, table, terms, BlockStart(b), BlockEnd(b, table.rows), Passing(terms, rows, agg.column, 0, done), schema, rows);
      } else {
        SkippedIsEmpty(skip, terms, rows, agg.column, b);
        assert Passing(terms, rows, agg.column, 0, done) + [] == Passing(terms, rows, agg.column, 0, done);
      }
      done := end;
      b := b + 1;
    }
  }

  lemma NothingYet(kind: AggKind, terms: seq<Term>, rows: seq<Row>, c: int)
    ensures Fold(kind, Passing(terms, rows, c, 0, 0)) == EMPTY
  {
  }

  lemma BlocksCover(rows: nat)
    ensures rows == 0 <==> Blocks(rows) == 0
    ensures BlockStart(0) == 0
  {
  }

  lemma SkippedIsEmpty(skip: seq<bool>, terms: seq<Term>, rows: seq<Row>, c: int, b: nat)
    requires FlagsOk(skip, terms, rows) && b < |skip| == Blocks(|rows|) && skip[b]
    ensures BlockStart(b) <= BlockEnd(b, |rows|) <= |rows|
    ensures Passing(terms, rows, c, BlockStart(b), BlockEnd(b, |rows|)) == []
  {
    hide RowPasses, Blocks, BlockEnd;
    BlockBounds(b, |rows|);
    assert BlockEmpty(terms, rows, b);
    NonePass(terms, rows, c, BlockStart(b), BlockEnd(b, |rows|));
  }
}
