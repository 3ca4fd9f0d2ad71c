/** Reading a table through an index: the candidate rows an index proposes for a WHERE clause,
    and why filtering them gives the rows a full scan would. */
module IndexAccess {
  import opened Values
  import opened SqlAst
  import opened Evaluator
  import opened NodeCodec
  import opened DiskTreeModel
  import opened DiskBPlusTree
  import opened DiskTreeRuns
  import opened IndexManager
  import PA = ParallelAggregate

  datatype Stored = Stored(rid: RecordID, row: Row)

  /** A table's live rows in heap order. */
  type Table = seq<Stored>

  ghost predicate RidsDiffer(table: Table) {
    forall i, j :: 0 <= i < j < |table| ==> table[i].rid != table[j].rid
  }

  /** Every row has the table's columns, each of its own type or NULL. */
  ghost predicate Typed(table: Table, kinds: seq<Kind>) {
    forall i :: 0 <= i < |table| ==> RowTyped(table[i].row, kinds)
  }

  ghost predicate RowTyped(row: Row, kinds: seq<Kind>) {
    |row| == |kinds| && forall c :: 0 <= c < |kinds| ==> OfKind(kinds[c], row[c])
  }

  /** The entry an index keeps for a row. */
  function EntryOf(columns: seq<int>, s: Stored, show: real -> string): Entry {
    Entry(KeyOf(columns, s.row, show), s.rid)
  }

  /** The index holds exactly one entry for each live row. */
  ghost predicate Mirrors(live: set<Entry>, columns: seq<int>, table: Table, show: real -> string) {
    && (forall i :: 0 <= i < |table| ==> EntryOf(columns, table[i], show) in live)
    && forall e :: e in live ==> exists i :: 0 <= i < |table| && e == EntryOf(columns, table[i], show)
  }

  ghost predicate IndexOk(idx: Index, table: Table, kinds: seq<Kind>, show: real -> string)
    reads idx, idx.tree, idx.bloom, idx.bloom.bits
  {
    && idx.Valid() && Mirrors(idx.Live(), idx.columns, table, show)
    && (|idx.columns| == 1 ==> 0 <= idx.columns[0] < |kinds| && idx.tree.kind == kinds[idx.columns[0]])
    && (|idx.columns| > 1 ==> idx.tree.kind == KText)
  }

  // ----- What a WHERE clause says about its columns

  /** A comparison of a column and a literal, put with the column first. */
  function ColumnLiteral(op: ComparisonOp, l: Expr, r: Expr): Option<(int, ComparisonOp, Value)> {
    if l.Column? && r.IsLiteral() then Some((l.index, op, PA.LiteralValue(r)))
    else if r.Column? && l.IsLiteral() then Some((r.index, PA.FlipOp(op), PA.LiteralValue(l)))
    else None
  }

  /** The column values the conjunction's equalities fix; a later one replaces an earlier. */
  function Collect(e: Expr, eqs: map<int, Value>): map<int, Value>
    decreases e
  {
    match e
    case Logical(And, l, r) => Collect(r, Collect(l, eqs))
    case Compare(Eq, l, r) =>
      var cl := ColumnLiteral(Eq, l, r);
      if cl.Some? && !cl.value.2.Null? then eqs[cl.value.0 := cl.value.2] else eqs
    case _ => eqs
  }

  predicate LiteralTyped(kinds: seq<Kind>, c: int, v: Value) {
    0 <= c < |kinds| ==> OfKind(kinds[c], v)
  }

  predicate LiteralComparable(kinds: seq<Kind>, c: int, v: Value) {
    0 <= c < |kinds| ==> Comparable(kinds[c], v)
  }

  /** Literals a column has to equal have its type; those it is otherwise compared with may be
      integers for floats and floats for integers. */
  predicate LiteralsTyped(e: Expr, kinds: seq<Kind>)
    decreases e
  {
    match e
    case Logical(_, l, r) => LiteralsTyped(l, kinds) && LiteralsTyped(r, kinds)
    case Compare(op, l, r) =>
      var cl := ColumnLiteral(op, l, r);
      cl.Some? ==> if op == Eq then LiteralTyped(kinds, cl.value.0, cl.value.2) else LiteralComparable(kinds, cl.value.0, cl.value.2)
    case Between(v, lo, hi, _) =>
      v.Column? && lo.IsLiteral() && hi.IsLiteral() ==>
        LiteralComparable(kinds, v.index, PA.LiteralValue(lo)) && LiteralComparable(kinds, v.index, PA.LiteralValue(hi))
    case _ => true
  }

  function RowValue(row: Row, c: int): Value {
    if 0 <= c < |row| then row[c] else Null
  }

  /** The row holds the value collected for every column. */
  ghost predicate Agrees(row: Row, eqs: map<int, Value>) {
    forall c :: c in eqs ==> RowValue(row, c) == eqs[c]
  }

  lemma LiteralEval(e: Expr, row: Row, fns: Functions)
    requires e.IsLiteral()
    ensures Eval(e, row, fns) == PA.LiteralValue(e)
  {
  }

  /** An accepted comparison holds of the column and the literal, in either spelling. */
  lemma ComparisonHolds(op: ComparisonOp, l: Expr, r: Expr, row: Row, fns: Functions)
    requires Accepts(Compare(op, l, r), row, fns) && ColumnLiteral(op, l, r).Some?
    ensures var (c, o, v) := ColumnLiteral(op, l, r).value;
      CompareWith(o, RowValue(row, c), v) == Bool(true)
  {
    assert Eval(Compare(op, l, r), row, fns) == CompareWith(op, Eval(l, row, fns), Eval(r, row, fns));
    if l.Column? && r.IsLiteral() {
      LiteralEval(r, row, fns);
      assert Eval(l, row, fns) == RowValue(row, l.index);
    } else {
      LiteralEval(l, row, fns);
      assert Eval(r, row, fns) == RowValue(row, r.index);
      CompareFlips(op, PA.LiteralValue(l), RowValue(row, r.index));
    }
  }

  lemma CompareFlips(op: ComparisonOp, a: Value, b: Value)
    ensures CompareWith(op, a, b) == CompareWith(PA.FlipOp(op), b, a)
  {
    if a.Text? && b.Text? {
      CompareTextSwap(a.t, b.t);
    }
  }

  /** Within one type, comparison is the storage order. */
  lemma CompareIsOrder(k: Kind, a: Value, b: Value)
    requires OfKind(k, a) && OfKind(k, b) && !a.Null? && !b.Null?
    ensures CompareValues(a, b).Some?
    ensures CompareValues(a, b).value < 0 <==> ValueLess(a, b)
    ensures CompareValues(a, b).value > 0 <==> ValueLess(b, a)
    ensures CompareValues(a, b).value == 0 <==> a == b
  {
    ValueLessTotal(k, a, b);
    if a.Text? && b.Text? {
      CompareTextSwap(a.t, b.t);
    }
  }

  /** So it is between an integer and a float. */
  lemma CompareIsNumeric(k: Kind, a: Value, b: Value)
    requires OfKind(k, a) && Comparable(k, b) && !a.Null? && !b.Null?
    ensures CompareValues(a, b).Some?
    ensures CompareValues(a, b).value < 0 <==> ValueLess(a, b)
    ensures CompareValues(a, b).value > 0 <==> ValueLess(b, a)
  {
    if OfKind(k, b) {
      CompareIsOrder(k, a, b);
    }
  }

  lemma ComparedNotNull(op: ComparisonOp, a: Value, b: Value)
    requires CompareWith(op, a, b) == Bool(true)
    ensures !a.Null? && !b.Null? && CompareValues(a, b).Some? && Evaluator.Holds(op, CompareValues(a, b).value)
  {
  }

  /** The range of keys a comparison can accept; none for inequality. */
  function RangeOf(op: ComparisonOp, v: Value): Option<(Option<Value>, Option<Value>)> {
    match op
    case Eq => Some((Some(v), Some(v)))
    case Lt => Some((None, Some(v)))
    case Leq => Some((None, Some(v)))
    case Gt => Some((Some(v), None))
    case Geq => Some((Some(v), None))
    case Neq => None
  }

  lemma RangeHas(k: Kind, op: ComparisonOp, a: Value, v: Value)
    requires OfKind(k, a) && Comparable(k, v) && CompareWith(op, a, v) == Bool(true) && op != Neq
    ensures var (lo, hi) := RangeOf(op, v).value; DiskTreeModel.InRange(Entry(a, MIN_RID), lo, hi)
  {
    ComparedNotNull(op, a, v);
    CompareIsNumeric(k, a, v);
    NotBothLess(a, v);
    hide ValueLess, CompareValues;
  }

  lemma NotBothLess(a: Value, b: Value)
    ensures !(ValueLess(a, b) && ValueLess(b, a))
  {
    if a.Text? && b.Text? {
      CompareTextSwap(a.t, b.t);
    }
  }

  lemma BetweenHas(k: Kind, a: Value, lo: Value, hi: Value)
    requires OfKind(k, a) && Comparable(k, lo) && Comparable(k, hi) && Evaluator.InRange(a, lo, hi, false) == Bool(true)
    ensures DiskTreeModel.InRange(Entry(a, MIN_RID), Some(lo), Some(hi))
  {
    BetweenNotNull(a, lo, hi);
    CompareIsNumeric(k, a, lo);
    CompareIsNumeric(k, a, hi);
  }

  lemma BetweenNotNull(a: Value, lo: Value, hi: Value)
    requires Evaluator.InRange(a, lo, hi, false) == Bool(true)
    ensures !a.Null? && !lo.Null? && !hi.Null?
    ensures CompareValues(a, lo).Some? && CompareValues(a, hi).Some? && CompareValues(a, lo).value >= 0 && CompareValues(a, hi).value <= 0
  {
  }

  /** A row the WHERE clause accepts agrees with every collected equality. */
  lemma {:induction false} CollectAgrees(e: Expr, eqs: map<int, Value>, kinds: seq<Kind>, row: Row, fns: Functions)
    requires Accepts(e, row, fns) && Agrees(row, eqs) && LiteralsTyped(e, kinds)
    requires RowTyped(row, kinds)
    ensures Agrees(row, Collect(e, eqs))
    decreases e
  {
    match e
    case Logical(And, l, r) =>
      assert Accepts(l, row, fns) && Accepts(r, row, fns);
      CollectAgrees(l, eqs, kinds, row, fns);
      CollectAgrees(r, Collect(l, eqs), kinds, row, fns);
    case Compare(Eq, l, r) =>
      var cl := ColumnLiteral(Eq, l, r);
      if cl.Some? && !cl.value.2.Null? {
        ComparisonHolds(Eq, l, r, row, fns);
        ComparedNotNull(Eq, RowValue(row, cl.value.0), cl.value.2);
        CompareIsOrder(kinds[cl.value.0], row[cl.value.0], cl.value.2);
      }
    case _ =>
  }

  // ----- Sequences without repetition

  ghost predicate NoRepeat<T(!new)>(s: seq<T>) {
    forall i, j :: 0 <= i < j < |s| ==> s[i] != s[j]
  }

  lemma {:induction false} CountOnce<T(!new)>(s: seq<T>, x: T)
    requires NoRepeat(s)
    ensures multiset(s)[x] == if x in s then 1 else 0
  {
    if s != [] {
      var n := |s| - 1;
      CountOnce(s[..n], x);
      assert s == s[..n] + [s[n]];
      assert forall i :: 0 <= i < n ==> s[..n][i] == s[i];
      assert s[n] !in s[..n];
    }
  }

  lemma SameMembers<T(!new)>(a: seq<T>, b: seq<T>)
    requires NoRepeat(a) && NoRepeat(b) && forall x :: x in a <==> x in b
    ensures multiset(a) == multiset(b)
  {
    forall x
      ensures multiset(a)[x] == multiset(b)[x]
    {
      CountOnce(a, x);
      CountOnce(b, x);
    }
  }

  // ----- What an index returns

  lemma {:induction false} ScanNoRepeat(run: seq<Entry>, lo: Option<Value>, hi: Option<Value>)
    requires forall i, j :: 0 <= i < j < |run| ==> run[i].rid != run[j].rid
    ensures NoRepeat(Scan(run, lo, hi))
  {
    hide DiskTreeModel.InRange;
    if run != [] {
      var n := |run| - 1;
      ScanNoRepeat(run[..n], lo, hi);
      ScanMembers(run[..n], lo, hi, run[n].rid);
    }
  }

  /** Rows differ by record id, so an index lists no record id twice. */
  lemma RunNoRepeat(t: DiskBPlusTree, columns: seq<int>, table: Table, show: real -> string)
    requires t.Valid() && RidsDiffer(table) && Mirrors(t.Live(), columns, table, show)
    ensures forall i, j :: 0 <= i < j < |t.Run()| ==> t.Run()[i].rid != t.Run()[j].rid
  {
    hide TreeOk, Heights, Flatten, Fits, PageImage, DiskTreeModel.EntryOk, KeyOf, OfKind;
    RunLists(t);
    var run := t.Run();
    forall i, j | 0 <= i < j < |run|
      ensures run[i].rid != run[j].rid
    {
      assert run[i] in t.Live() && run[j] in t.Live();
      LessIrreflexive(t.kind, run[i], run[j]);
    }
  }

  lemma LessIrreflexive(k: Kind, a: Entry, b: Entry)
    requires DiskTreeModel.EntryOk(k, a) && DiskTreeModel.EntryOk(k, b) && Less(a, b)
    ensures a != b
  {
    LessTotal(k, a, b);
  }

  /** Every accepted row is among the candidates. */
  ghost predicate Covers(rids: seq<RecordID>, table: Table, where: Expr, fns: Functions) {
    forall i :: 0 <= i < |table| && Accepts(where, table[i].row, fns) ==> table[i].rid in rids
  }

  /** Every accepted row has its key in the range. */
  ghost predicate KeysIn(columns: seq<int>, table: Table, where: Expr, lo: Option<Value>, hi: Option<Value>, fns: Functions, show: real -> string) {
    forall i :: 0 <= i < |table| && Accepts(where, table[i].row, fns) ==>
                  DiskTreeModel.InRange(EntryOf(columns, table[i], show), lo, hi)
  }

  lemma ScanCovers(t: DiskBPlusTree, columns: seq<int>, table: Table, where: Expr, lo: Option<Value>, hi: Option<Value>, fns: Functions, show: real -> string)
    requires t.Valid() && RidsDiffer(table) && Mirrors(t.Live(), columns, table, show)
    requires KeysIn(columns, table, where, lo, hi, fns, show)
    ensures Covers(Scan(t.Run(), lo, hi), table, where, fns) && NoRepeat(Scan(t.Run(), lo, hi))
  {
    hide TreeOk, Heights, Flatten, Fits, PageImage, DiskTreeModel.EntryOk, KeyOf, OfKind, Accepts, Scan, DiskTreeModel.InRange;
    RunNoRepeat(t, columns, table, show);
    ScanNoRepeat(t.Run(), lo, hi);
    forall i | 0 <= i < |table| && Accepts(where, table[i].row, fns)
      ensures table[i].rid in Scan(t.Run(), lo, hi)
    {
      var e := EntryOf(columns, table[i], show);
      assert e in t.Live() && e.rid == table[i].rid;
      ScanMembers(t.Run(), lo, hi, e.rid);
    }
  }

  // ----- Which range the WHERE clause fixes

  lemma SingleKey(columns: seq<int>, row: Row, show: real -> string)
    requires |columns| == 1
    ensures KeyOf(columns, row, show) == RowValue(row, columns[0])
  {
  }

  lemma ComparisonKeys(columns: seq<int>, table: Table, kinds: seq<Kind>, op: ComparisonOp, l: Expr, r: Expr, fns: Functions, show: real -> string)
    requires Typed(table, kinds) && |columns| == 1 && 0 <= columns[0] < |kinds|
    requires ColumnLiteral(op, l, r).Some? && ColumnLiteral(op, l, r).value.0 == columns[0]
    requires LiteralComparable(kinds, columns[0], ColumnLiteral(op, l, r).value.2) && ColumnLiteral(op, l, r).value.1 != Neq
    ensures var (c, o, v) := ColumnLiteral(op, l, r).value;
      var (lo, hi) := RangeOf(o, v).value;
      KeysIn(columns, table, Compare(op, l, r), lo, hi, fns, show)
  {
    hide OfKind, Comparable, Accepts, CompareWith, KeyOf, DiskTreeModel.InRange;
    var (c, o, v) := ColumnLiteral(op, l, r).value;
    var (lo, hi) := RangeOf(o, v).value;
    forall i | 0 <= i < |table| && Accepts(Compare(op, l, r), table[i].row, fns)
      ensures DiskTreeModel.InRange(EntryOf(columns, table[i], show), lo, hi)
    {
      SingleKey(columns, table[i].row, show);
      ComparisonHolds(op, l, r, table[i].row, fns);
      RangeHas(kinds[c], o, table[i].row[c], v);
      KeyDecides(Entry(table[i].row[c], MIN_RID), EntryOf(columns, table[i], show), lo, hi);
    }
  }

  lemma KeyDecides(a: Entry, b: Entry, lo: Option<Value>, hi: Option<Value>)
    requires a.key == b.key
    ensures DiskTreeModel.InRange(a, lo, hi) == DiskTreeModel.InRange(b, lo, hi)
  {
  }

  lemma BetweenKeys(columns: seq<int>, table: Table, kinds: seq<Kind>, v: Expr, lo: Expr, hi: Expr, fns: Functions, show: real -> string)
    requires Typed(table, kinds) && |columns| == 1 && 0 <= columns[0] < |kinds|
    requires v.Column? && v.index == columns[0] && lo.IsLiteral() && hi.IsLiteral()
    requires LiteralComparable(kinds, columns[0], PA.LiteralValue(lo)) && LiteralComparable(kinds, columns[0], PA.LiteralValue(hi))
    ensures KeysIn(columns, table, Between(v, lo, hi, false), Some(PA.LiteralValue(lo)), Some(PA.LiteralValue(hi)), fns, show)
  {
    hide OfKind, KeyOf, DiskTreeModel.InRange, Evaluator.InRange;
    var c := columns[0];
    forall i | 0 <= i < |table| && Accepts(Between(v, lo, hi, false), table[i].row, fns)
      ensures DiskTreeModel.InRange(EntryOf(columns, table[i], show), Some(PA.LiteralValue(lo)), Some(PA.LiteralValue(hi)))
    {
      var row := table[i].row;
      SingleKey(columns, row, show);
      LiteralEval(lo, row, fns);
      LiteralEval(hi, row, fns);
      assert Eval(v, row, fns) == row[c];
      BetweenHas(kinds[c], row[c], PA.LiteralValue(lo), PA.LiteralValue(hi));
      KeyDecides(Entry(row[c], MIN_RID), EntryOf(columns, table[i], show), Some(PA.LiteralValue(lo)), Some(PA.LiteralValue(hi)));
    }
  }

  /** The collected value of each column of an index. */
  function KeyValues(columns: seq<int>, eqs: map<int, Value>): (vs: seq<Value>)
    requires forall i :: 0 <= i < |columns| ==> columns[i] in eqs
    ensures |vs| == |columns| && forall i :: 0 <= i < |vs| ==> vs[i] == eqs[columns[i]]
  {
    seq(|columns|, i requires 0 <= i < |columns| => eqs[columns[i]])
  }

  lemma CompositeKeys(columns: seq<int>, table: Table, kinds: seq<Kind>, where: Expr, fns: Functions, show: real -> string)
    requires Typed(table, kinds) && |columns| > 1 && LiteralsTyped(where, kinds)
    requires forall i :: 0 <= i < |columns| ==> columns[i] in Collect(where, map[])
    ensures var key := KeyFromValues(KeyValues(columns, Collect(where, map[])), show);
      OfKind(KText, key) && KeysIn(columns, table, where, Some(key), Some(key), fns, show)
  {
    hide Accepts, Collect;
    var eqs := Collect(where, map[]);
    var key := KeyFromValues(KeyValues(columns, eqs), show);
    assert OfKind(KText, key);
    hide OfKind, EncodeKey;
    forall i | 0 <= i < |table| && Accepts(where, table[i].row, fns)
      ensures DiskTreeModel.InRange(EntryOf(columns, table[i], show), Some(key), Some(key))
    {
      CollectAgrees(where, map[], kinds, table[i].row, fns);
      assert Picked(columns, table[i].row) == KeyValues(columns, eqs);
      ValueLessTotal(KText, key, key);
    }
  }

  // ----- What happens when a literal has another type than its column

  /** The row's value of every collected column compares equal to the collected literal. */
  ghost predicate ComparesEqual(row: Row, eqs: map<int, Value>) {
    forall c :: c in eqs ==> CompareWith(Eq, RowValue(row, c), eqs[c]) == Bool(true)
  }

  /** Whatever the types, a row the WHERE clause accepts compares equal to every collected literal. */
  lemma {:induction false} CollectCompares(e: Expr, eqs: map<int, Value>, row: Row, fns: Functions)
    requires Accepts(e, row, fns) && ComparesEqual(row, eqs)
    ensures ComparesEqual(row, Collect(e, eqs))
    decreases e
  {
    hide CompareWith;
    match e
    case Logical(And, l, r) =>
      PA.BothAccept(Eval(l, row, fns), Eval(r, row, fns));
      CollectCompares(l, eqs, row, fns);
      CollectCompares(r, Collect(l, eqs), row, fns);
    case Compare(Eq, l, r) =>
      if ColumnLiteral(Eq, l, r).Some? {
        ComparisonHolds(Eq, l, r, row, fns);
      }
    case _ =>
  }

  /** Values that compare equal have equal key texts exactly when they have the same type. */
  lemma {:induction false} EncodedAlikeIff(a: seq<Value>, b: seq<Value>, show: real -> string)
    requires |a| == |b| && forall i :: 0 <= i < |a| ==> CompareWith(Eq, a[i], b[i]) == Bool(true)
    ensures EncodeKey(a, show) == EncodeKey(b, show) <==> forall i :: 0 <= i < |a| ==> Tag(a[i]) == Tag(b[i])
  {
    if a != [] {
      hide EncodeKey, Joins.KeyText;
      EncodedAlikeIff(a[1..], b[1..], show);
      EncodeFirst(a, show);
      EncodeFirst(b, show);
      assert CompareWith(Eq, a[0], b[0]) == Bool(true);
      if Tag(a[0]) == Tag(b[0]) {
        SameValue(a[0], b[0]);
        var head := Joins.KeyText(a[0], show) + "\U{001F}";
        assert EncodeKey(a, show)[|head|..] == EncodeKey(a[1..], show) && EncodeKey(b, show)[|head|..] == EncodeKey(b[1..], show);
        assert forall i :: 0 < i < |a| ==> a[i] == a[1..][i - 1] && b[i] == b[1..][i - 1];
      }
    }
  }

  lemma EncodeFirst(a: seq<Value>, show: real -> string)
    requires a != []
    ensures EncodeKey(a, show) == Joins.KeyText(a[0], show) + "\U{001F}" + EncodeKey(a[1..], show)
    ensures EncodeKey(a, show) != "" && EncodeKey(a, show)[0] as int == '0' as int + Tag(a[0])
  {
  }

  lemma SameValue(a: Value, b: Value)
    requires CompareWith(Eq, a, b) == Bool(true) && Tag(a) == Tag(b)
    ensures a == b
  {
    if a.Text? {
      CompareTextZero(a.t, b.t);
    }
  }

  /** The search with a composite key finds a row that the WHERE clause accepts exactly when each
      literal has the type of the row's value: 5 and 5.0 compare equal, but not as key texts. */
  lemma CompositeFindsIff(t: DiskBPlusTree, columns: seq<int>, table: Table, n: nat, where: Expr, fns: Functions, show: real -> string)
    requires t.Valid() && t.kind == KText && RidsDiffer(table) && Mirrors(t.Live(), columns, table, show)
    requires |columns| > 1 && n < |table| && Accepts(where, table[n].row, fns)
    requires forall i :: 0 <= i < |columns| ==> columns[i] in Collect(where, map[])
    ensures var eqs := Collect(where, map[]);
      var key := KeyFromValues(KeyValues(columns, eqs), show);
      table[n].rid in Scan(t.Run(), Some(key), Some(key)) <==> forall i :: 0 <= i < |columns| ==> Tag(RowValue(table[n].row, columns[i])) == Tag(eqs[columns[i]])
  {
    hide TreeOk, Heights, Flatten, Fits, PageImage, DiskTreeModel.EntryOk, Accepts, Scan, Collect, EncodeKey, CompareWith, ValueLess;
    var row, eqs := table[n].row, Collect(where, map[]);
    var key := KeyFromValues(KeyValues(columns, eqs), show);
    CollectCompares(where, map[], row, fns);
    EncodedAlikeIff(Picked(columns, row), KeyValues(columns, eqs), show);
    ScanMembers(t.Run(), Some(key), Some(key), table[n].rid);
    var own := EntryOf(columns, table[n], show);
    ValueLessTotal(KText, own.key, key);
    assert own in t.Live();
    forall e | e in t.Live() && e.rid == own.rid ensures e == own {
      var i :| 0 <= i < |table| && e == EntryOf(columns, table[i], show);
      assert table[i].rid == table[n].rid;
    }
  }

  /** The same for an index on one column: its tree compares numbers with numbers, so the row is
      found exactly when the filter may hold the literal's bytes. */
  lemma EqualityFindsIff(idx: Index, table: Table, n: nat, l: Expr, r: Expr, kinds: seq<Kind>, fns: Functions, show: real -> string)
    requires IndexOk(idx, table, kinds, show) && Typed(table, kinds) && RidsDiffer(table) && |idx.columns| == 1
    requires n < |table| && Accepts(Compare(Eq, l, r), table[n].row, fns)
    requires ColumnLiteral(Eq, l, r).Some? && ColumnLiteral(Eq, l, r).value.0 == idx.columns[0]
    requires LiteralComparable(kinds, idx.columns[0], ColumnLiteral(Eq, l, r).value.2)
    ensures var key := ColumnLiteral(Eq, l, r).value.2;
      table[n].rid in idx.Answer(key) <==> idx.bloom.MayHold(KeyBytes(key))
  {
    hide TreeOk, Heights, Flatten, Fits, PageImage, Comparable, OfKind, Accepts, Scan, KeyBytes, KeysIn, Mirrors, CompareWith;
    var (c, o, key) := ColumnLiteral(Eq, l, r).value;
    ComparisonKeys(idx.columns, table, kinds, Eq, l, r, fns, show);
    ScanCovers(idx.tree, idx.columns, table, Compare(Eq, l, r), Some(key), Some(key), fns, show);
  }

  /** An index on an INT column that holds 5, and the search for 5.0: the filter was never given a
      float's bytes, so the row is not found although the comparison holds. */
  method FloatLiteralMissed() returns (idx: Index, rids: seq<RecordID>)
    ensures fresh(idx) && idx.Valid() && idx.tree.kind == KInt && idx.Live() == {Entry(Int(5), RecordID(0, 0))}
    ensures CompareWith(Eq, Int(5), Double(5.0)) == Bool(true)
    ensures rids == [] && Scan(idx.tree.Run(), Some(Double(5.0)), Some(Double(5.0))) == [RecordID(0, 0)]
  {
    hide TreeOk, Heights, Flatten, Fits, PageImage, Locate, Scan, Less;
    var tree := new DiskBPlusTree(KInt, map[], 0);
    idx := new Index([0], tree);
    assert tree.levels == [] && EntryOk(KInt, Entry(Int(5), RecordID(0, 0)));
    idx.Add(Int(5), RecordID(0, 0));
    FilterBits();
    assert !idx.bloom.bits[Locate([], 0, 32768)];
    OneRow(tree, Entry(Int(5), RecordID(0, 0)), Double(5.0));
    rids := idx.Lookup(Double(5.0));
  }

  lemma OneRow(t: DiskBPlusTree, e: Entry, key: Value)
    requires t.Valid() && t.Live() == {e} && KeyEqual(e.key, key)
    ensures Scan(t.Run(), Some(key), Some(key)) == [e.rid]
  {
    hide *;
    RunLists(t);
    OnlyEntry(t.kind, t.Run(), e);
    OneScan(e, key);
  }

  lemma OnlyEntry(k: Kind, run: seq<Entry>, e: Entry)
    requires Lists(run, {e}) && DiskTreeModel.AllOk(k, run)
    ensures run == [e]
  {
    hide Less, DiskTreeModel.EntryOk;
    assert e in run;
    assert forall i :: 0 <= i < |run| ==> run[i] in run;
    if |run| > 1 {
      assert Less(run[0], run[1]) && DiskTreeModel.EntryOk(k, run[0]);
      LessIrreflexive(k, run[0], run[1]);
    }
  }

  lemma OneScan(e: Entry, key: Value)
    requires KeyEqual(e.key, key)
    ensures Scan([e], Some(key), Some(key)) == [e.rid]
  {
    assert [e][..0] == [];
  }

  // ----- The candidate search

  ghost predicate AllOk(indexes: seq<Index>, table: Table, kinds: seq<Kind>, show: real -> string)
    reads indexes, set i | 0 <= i < |indexes| :: indexes[i].tree, set i | 0 <= i < |indexes| :: indexes[i].bloom, set i | 0 <= i < |indexes| :: indexes[i].bloom.bits
  {
    forall i :: 0 <= i < |indexes| ==> IndexOk(indexes[i], table, kinds, show)
  }

  /** An index on one column alone. */
  method FindIndex(indexes: seq<Index>, c: int) returns (found: Option<Index>)
    ensures found.Some? ==> found.value in indexes && found.value.columns == [c]
    ensures found.None? ==> forall i :: 0 <= i < |indexes| ==> indexes[i].columns != [c]
  {
    for i := 0 to |indexes|
      invariant forall j :: 0 <= j < i ==> indexes[j].columns != [c]
    {
      if |indexes[i].columns| == 1 && indexes[i].columns[0] == c {
        return Some(indexes[i]);
      }
    }
    return None;
  }

  // ----- When an index is used

  ghost predicate IndexOn(indexes: seq<Index>, c: int) {
    exists i :: 0 <= i < |indexes| && indexes[i].columns == [c]
  }

  /** All columns of a composite index are fixed by equalities. */
  ghost predicate Fixes(idx: Index, where: Expr) {
    |idx.columns| > 1 && forall i :: 0 <= i < |idx.columns| ==> idx.columns[i] in Collect(where, map[])
  }

  ghost predicate FixesSome(indexes: seq<Index>, where: Expr) {
    exists i :: 0 <= i < |indexes| && Fixes(indexes[i], where)
  }

  /** A comparison of an indexed column with a literal other than NULL, except by <>. */
  ghost predicate ComparisonUsable(indexes: seq<Index>, op: ComparisonOp, l: Expr, r: Expr) {
    var cl := ColumnLiteral(op, l, r);
    cl.Some? && cl.value.1 != Neq && !cl.value.2.Null? && IndexOn(indexes, cl.value.0)
  }

  ghost predicate BetweenUsable(indexes: seq<Index>, v: Expr, lo: Expr, hi: Expr) {
    && v.Column? && lo.IsLiteral() && hi.IsLiteral() && IndexOn(indexes, v.index)
    && !PA.LiteralValue(lo).Null? && !PA.LiteralValue(hi).Null?
  }

  /** Some index narrows the WHERE clause: as a whole, or one side of an AND. */
  ghost predicate Usable(indexes: seq<Index>, where: Expr) {
    || FixesSome(indexes, where)
    || match where
       case Logical(And, l, r) => Usable(indexes, l) || Usable(indexes, r)
       case Compare(op, l, r) => ComparisonUsable(indexes, op, l, r)
       case Between(v, lo, hi, negated) => !negated && BetweenUsable(indexes, v, lo, hi)
       case _ => false
  }

  ghost predicate Proposed(r: Option<seq<RecordID>>, table: Table, where: Expr, fns: Functions) {
    r.Some? ==> Covers(r.value, table, where, fns) && NoRepeat(r.value)
  }

  /** The first composite index whose columns the equalities fix. */
  method CompositeCandidates(where: Expr, indexes: seq<Index>, show: real -> string, ghost table: Table, ghost kinds: seq<Kind>, ghost fns: Functions)
    returns (r: Option<seq<RecordID>>)
    requires AllOk(indexes, table, kinds, show) && Typed(table, kinds) && RidsDiffer(table) && LiteralsTyped(where, kinds)
    ensures Proposed(r, table, where, fns) && (r.Some? <==> FixesSome(indexes, where))
  {
    hide OfKind, Accepts, Collect, Covers, KeysIn, Mirrors, EncodeKey, Scan, Typed, KeyFromValues, TreeOk, Heights, Flatten, PageImage, Fits;
    var eqs := Collect(where, map[]);
    if eqs == map[] {
      assert forall i :: 0 <= i < |indexes| && |indexes[i].columns| > 1 ==> indexes[i].columns[0] !in eqs;
      return None;
    }
    for i := 0 to |indexes|
      invariant forall j :: 0 <= j < i ==> !Fixes(indexes[j], where)
    {
      var idx := indexes[i];
      if |idx.columns| > 1 {
        var covered := AllFixed(idx.columns, eqs);
        if covered {
          var key := KeyFromValues(KeyValues(idx.columns, eqs), show);
          CompositeKeys(idx.columns, table, kinds, where, fns, show);
          assert IndexOk(idx, table, kinds, show);
          ScanCovers(idx.tree, idx.columns, table, where, Some(key), Some(key), fns, show);
          var rids := idx.Lookup(key);
          return Some(rids);
        }
      }
    }
    return None;
  }

  method AllFixed(columns: seq<int>, eqs: map<int, Value>) returns (covered: bool)
    ensures covered <==> forall i :: 0 <= i < |columns| ==> columns[i] in eqs
  {
    for i := 0 to |columns|
      invariant forall j :: 0 <= j < i ==> columns[j] in eqs
    {
      if columns[i] !in eqs {
        return false;
      }
    }
    return true;
  }

  /** The rows of an index in a comparison's range. */
  method ComparisonCandidates(op: ComparisonOp, l: Expr, r: Expr, indexes: seq<Index>, show: real -> string,
                              ghost table: Table, ghost kinds: seq<Kind>, ghost fns: Functions)
    returns (found: Option<seq<RecordID>>)
    requires AllOk(indexes, table, kinds, show) && Typed(table, kinds) && RidsDiffer(table) && LiteralsTyped(Compare(op, l, r), kinds)
    ensures Proposed(found, table, Compare(op, l, r), fns) && (found.Some? <==> ComparisonUsable(indexes, op, l, r))
  {
    hide OfKind, Accepts, Covers, KeysIn, Mirrors, Scan, Typed, TreeOk, Heights, Flatten, PageImage, Fits;
    var cl := ColumnLiteral(op, l, r);
    if cl.None? {
      return None;
    }
    var (c, o, key) := cl.value;
    var at := FindIndex(indexes, c);
    if at.None? || key.Null? || o == Neq {
      return None;
    }
    var idx := at.value;
    assert IndexOk(idx, table, kinds, show);
    ComparisonKeys(idx.columns, table, kinds, op, l, r, fns, show);
    ghost var (lo, hi) := RangeOf(o, key).value;
    ScanCovers(idx.tree, idx.columns, table, Compare(op, l, r), lo, hi, fns, show);
    var rids: seq<RecordID>;
    match o {
      case Eq =>
        rids := idx.Lookup(key);
      case Lt =>
        rids := idx.tree.RangeScan(None, Some(key));
      case Leq =>
        rids := idx.tree.RangeScan(None, Some(key));
      case Gt =>
        rids := idx.tree.RangeScan(Some(key), None);
      case Geq =>
        rids := idx.tree.RangeScan(Some(key), None);
    }
    found := Some(rids);
  }

  method BetweenCandidates(v: Expr, lo: Expr, hi: Expr, indexes: seq<Index>, show: real -> string,
                           ghost table: Table, ghost kinds: seq<Kind>, ghost fns: Functions)
    returns (found: Option<seq<RecordID>>)
    requires AllOk(indexes, table, kinds, show) && Typed(table, kinds) && RidsDiffer(table) && LiteralsTyped(Between(v, lo, hi, false), kinds)
    ensures Proposed(found, table, Between(v, lo, hi, false), fns) && (found.Some? <==> BetweenUsable(indexes, v, lo, hi))
  {
    hide OfKind, Accepts, Covers, KeysIn, Mirrors, Scan, Typed, TreeOk, Heights, Flatten, PageImage, Fits;
    if !v.Column? || !lo.IsLiteral() || !hi.IsLiteral() {
      return None;
    }
    var at := FindIndex(indexes, v.index);
    var l, h := PA.LiteralValue(lo), PA.LiteralValue(hi);
    if at.None? || l.Null? || h.Null? {
      return None;
    }
    var idx := at.value;
    assert IndexOk(idx, table, kinds, show);
    BetweenKeys(idx.columns, table, kinds, v, lo, hi, fns, show);
    ScanCovers(idx.tree, idx.columns, table, Between(v, lo, hi, false), Some(l), Some(h), fns, show);
    var rids := idx.tree.RangeScan(Some(l), Some(h));
    found := Some(rids);
  }

  /** A row the conjunction accepts is accepted by both sides. */
  lemma SideCovers(l: Expr, r: Expr, table: Table, rids: seq<RecordID>, fns: Functions)
    ensures Covers(rids, table, l, fns) || Covers(rids, table, r, fns) ==> Covers(rids, table, Logical(And, l, r), fns)
  {
    forall i | 0 <= i < |table| && Accepts(Logical(And, l, r), table[i].row, fns)
      ensures Accepts(l, table[i].row, fns) && Accepts(r, table[i].row, fns)
    {
    }
  }

  /** The record ids an index proposes for a WHERE clause, none when no index applies: every
      qualifying row's, and none twice. */
  method IndexCandidates(where: Expr, indexes: seq<Index>, show: real -> string, ghost table: Table, ghost kinds: seq<Kind>, ghost fns: Functions)
    returns (found: Option<seq<RecordID>>)
    requires AllOk(indexes, table, kinds, show) && Typed(table, kinds) && RidsDiffer(table) && LiteralsTyped(where, kinds)
    ensures Proposed(found, table, where, fns) && (found.Some? <==> Usable(indexes, where))
    decreases where
  {
    hide AllOk, Typed, RidsDiffer, Covers, FixesSome, ComparisonUsable, BetweenUsable;
    found := CompositeCandidates(where, indexes, show, table, kinds, fns);
    if found.Some? {
      return;
    }
    match where {
      case Logical(And, l, r) =>
        found := IndexCandidates(l, indexes, show, table, kinds, fns);
        if found.None? {
          found := IndexCandidates(r, indexes, show, table, kinds, fns);
        }
        if found.Some? {
          SideCovers(l, r, table, found.value, fns);
        }
      case Compare(op, l, r) =>
        found := ComparisonCandidates(op, l, r, indexes, show, table, kinds, fns);
      case Between(v, lo, hi, negated) =>
        if !negated {
          found := BetweenCandidates(v, lo, hi, indexes, show, table, kinds, fns);
        }
      case _ =>
    }
  }

  // ----- Gathering rows

  predicate Wanted(where: Option<Expr>, row: Row, fns: Functions) {
    where.Some? ==> Accepts(where.value, row, fns)
  }

  /** The rows a full scan keeps. */
  function Kept(table: Table, where: Option<Expr>, fns: Functions): Table {
    if table == [] then []
    else (if Wanted(where, table[0].row, fns) then [table[0]] else []) + Kept(table[1..], where, fns)
  }

  /** The live row at a place, if there is one. */
  function Fetch(table: Table, rid: RecordID): (s: Option<Stored>)
    ensures s.Some? ==> s.value in table && s.value.rid == rid
    ensures s.None? ==> forall i :: 0 <= i < |table| ==> table[i].rid != rid
  {
    if table == [] then None
    else if table[0].rid == rid then Some(table[0])
    else Fetch(table[1..], rid)
  }

  lemma {:induction false} KeptMembers(table: Table, where: Option<Expr>, fns: Functions, s: Stored)
    ensures s in Kept(table, where, fns) <==> s in table && Wanted(where, s.row, fns)
  {
    hide Wanted;
    if table != [] {
      KeptMembers(table[1..], where, fns, s);
      assert table == [table[0]] + table[1..];
    }
  }

  lemma {:induction false} KeptDiffer(table: Table, where: Option<Expr>, fns: Functions)
    requires RidsDiffer(table)
    ensures RidsDiffer(Kept(table, where, fns))
  {
    hide Wanted;
    if table != [] {
      var rest := Kept(table[1..], where, fns);
      KeptDiffer(table[1..], where, fns);
      forall i | 0 <= i < |rest|
        ensures rest[i].rid != table[0].rid
      {
        KeptMembers(table[1..], where, fns, rest[i]);
        assert rest[i] in rest;
        var j :| 0 <= j < |table[1..]| && table[1..][j] == rest[i];
        assert table[j + 1] == rest[i];
      }
    }
  }

  /** The accepted rows of a table, each once, are what a full scan keeps up to order. */
  lemma AllKept(table: Table, where: Option<Expr>, fns: Functions, rows: Table)
    requires RidsDiffer(table) && RidsDiffer(rows)
    requires forall s :: s in rows <==> s in table && Wanted(where, s.row, fns)
    ensures multiset(rows) == multiset(Kept(table, where, fns))
  {
    hide Wanted;
    KeptDiffer(table, where, fns);
    forall s
      ensures s in rows <==> s in Kept(table, where, fns)
    {
      KeptMembers(table, where, fns, s);
    }
    SameMembers(rows, Kept(table, where, fns));
  }

  /** Fetches and filters the candidates. */
  method FetchCandidates(rids: seq<RecordID>, table: Table, where: Expr, fns: Functions) returns (rows: Table)
    requires RidsDiffer(table) && Covers(rids, table, where, fns) && NoRepeat(rids)
    ensures multiset(rows) == multiset(Kept(table, Some(where), fns))
  {
    hide Accepts, Kept;
    rows := [];
    for n := 0 to |rids|
      invariant RidsDiffer(rows)
      invariant forall i :: 0 <= i < |rows| ==> rows[i].rid in rids[..n] && rows[i] in table && Accepts(where, rows[i].row, fns)
      invariant forall s :: s in table && s.rid in rids[..n] && Accepts(where, s.row, fns) ==> s in rows
    {
      assert rids[n] !in rids[..n];
      assert rids[..n + 1] == rids[..n] + [rids[n]];
      var s := Fetch(table, rids[n]);
      if s.Some? && Accepts(where, s.value.row, fns) {
        OthersElsewhere(table, s.value);
        rows := rows + [s.value];
      } else {
        NotHere(table, rids[n], where, fns);
      }
    }
    assert rids[..|rids|] == rids;
    AllKept(table, Some(where), fns, rows);
  }

  lemma OthersElsewhere(table: Table, s: Stored)
    requires RidsDiffer(table) && s in table
    ensures forall t :: t in table && t.rid == s.rid ==> t == s
  {
  }

  lemma NotHere(table: Table, rid: RecordID, where: Expr, fns: Functions)
    requires RidsDiffer(table)
    requires Fetch(table, rid).None? || !Accepts(where, Fetch(table, rid).value.row, fns)
    ensures forall t :: t in table && t.rid == rid ==> !Accepts(where, t.row, fns)
  {
    hide Accepts;
    if Fetch(table, rid).Some? {
      OthersElsewhere(table, Fetch(table, rid).value);
    }
  }

  /** Reads every row and keeps the wanted ones, in heap order. */
  method FullScan(table: Table, where: Option<Expr>, fns: Functions) returns (rows: Table)
    ensures rows == Kept(table, where, fns)
  {
    hide Wanted;
    rows := [];
    assert table[0..] == table;
    for n := 0 to |table|
      invariant rows + Kept(table[n..], where, fns) == Kept(table, where, fns)
    {
      assert table[n..][1..] == table[n + 1..];
      if Wanted(where, table[n].row, fns) {
        rows := rows + [table[n]];
      }
    }
    assert rows + [] == rows;
  }

  /** Reading a table for a WHERE clause, through an index or by a full scan: the same rows. */
  method GatherRows(table: Table, indexes: seq<Index>, where: Option<Expr>, show: real -> string, fns: Functions, ghost kinds: seq<Kind>)
    returns (rows: Table)
    requires AllOk(indexes, table, kinds, show) && Typed(table, kinds) && RidsDiffer(table)
    requires where.Some? ==> LiteralsTyped(where.value, kinds)
    ensures multiset(rows) == multiset(Kept(table, where, fns))
  {
    hide AllOk, Typed, Wanted, RidsDiffer, Covers;
    if where.Some? {
      var rids := IndexCandidates(where.value, indexes, show, table, kinds, fns);
      if rids.Some? {
        rows := FetchCandidates(rids.value, table, where.value, fns);
        return;
      }
    }
    rows := FullScan(table, where, fns);
  }

  // ----- Keeping an index in step with its table

  /** Inserting a row and adding its entry. */
  lemma MirrorsInsert(live: set<Entry>, columns: seq<int>, table: Table, s: Stored, show: real -> string)
    requires Mirrors(live, columns, table, show)
    ensures Mirrors(live + {EntryOf(columns, s, show)}, columns, table + [s], show)
  {
    hide KeyOf;
    var table' := table + [s];
    assert table'[|table|] == s;
    forall e | e in live
      ensures exists i :: 0 <= i < |table'| && e == EntryOf(columns, table'[i], show)
    {
      var i :| 0 <= i < |table| && e == EntryOf(columns, table[i], show);
      assert table'[i] == table[i];
    }
  }

  /** Deleting a row and removing its entry. */
  lemma MirrorsDelete(live: set<Entry>, columns: seq<int>, table: Table, n: nat, show: real -> string)
    requires Mirrors(live, columns, table, show) && RidsDiffer(table) && n < |table|
    ensures Mirrors(live - {EntryOf(columns, table[n], show)}, columns, table[..n] + table[n + 1..], show)
  {
    hide KeyOf;
    var table' := table[..n] + table[n + 1..];
    forall i | 0 <= i < |table'|
      ensures table'[i] == table[if i < n then i else i + 1] && table'[i].rid != table[n].rid
    {
    }
    forall e | e in live && e != EntryOf(columns, table[n], show)
      ensures exists i :: 0 <= i < |table'| && e == EntryOf(columns, table'[i], show)
    {
      var i :| 0 <= i < |table| && e == EntryOf(columns, table[i], show);
      assert table'[if i < n then i else i - 1] == table[i];
    }
  }
}
