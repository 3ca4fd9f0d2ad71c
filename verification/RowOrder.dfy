/** The order of ORDER BY on rows, and the stable sort of rows held in memory. */
module RowOrder {
  import opened Values

  datatype SortKey = SortKey(column: nat, ascending: bool)

  type Keys = seq<SortKey>

  /** The row has every key column, with NULLs and values of one type in it. */
  ghost predicate Keyed(row: Row, keys: Keys, kinds: seq<Kind>) {
    |kinds| == |keys| && forall i :: 0 <= i < |keys| ==> KeyedAt(row, keys[i], kinds[i])
  }

  predicate KeyedAt(row: Row, key: SortKey, k: Kind) {
    key.column < |row| && OfKind(k, row[key.column])
  }

  predicate HasKeys(row: Row, keys: Keys) {
    forall i :: 0 <= i < |keys| ==> keys[i].column < |row|
  }

  lemma KeyedHasKeys(row: Row, keys: Keys, kinds: seq<Kind>)
    requires Keyed(row, keys, kinds)
    ensures HasKeys(row, keys)
  {
    forall i | 0 <= i < |keys| ensures keys[i].column < |row| {
      assert KeyedAt(row, keys[i], kinds[i]);
    }
  }

  /** The first key that tells the rows apart decides. */
  predicate RowLess(a: Row, b: Row, keys: Keys)
    requires HasKeys(a, keys) && HasKeys(b, keys)
  {
    if keys == [] then false
    else
      var x, y := a[keys[0].column], b[keys[0].column];
      if ValueLess(x, y) then keys[0].ascending
      else if ValueLess(y, x) then !keys[0].ascending
      else RowLess(a, b, keys[1..])
  }

  /** Two rows agree on a key column, as far as the order goes. */
  predicate TieAt(a: Row, b: Row, key: SortKey)
    requires key.column < |a| && key.column < |b|
  {
    !ValueLess(a[key.column], b[key.column]) && !ValueLess(b[key.column], a[key.column])
  }

  /** Key i decides for a: the keys before it tie, and its column ascends or descends from a to
      b as asked. */
  ghost predicate DecidesAt(a: Row, b: Row, keys: Keys, i: int)
    requires HasKeys(a, keys) && HasKeys(b, keys)
  {
    && 0 <= i < |keys| && (forall j :: 0 <= j < i ==> TieAt(a, b, keys[j]))
    && var x, y := a[keys[i].column], b[keys[i].column];
      (keys[i].ascending && ValueLess(x, y)) || (!keys[i].ascending && ValueLess(y, x) && !ValueLess(x, y))
  }

  /** A row precedes another exactly if some key decides for it. */
  lemma {:induction false} RowLessIff(a: Row, b: Row, keys: Keys)
    requires HasKeys(a, keys) && HasKeys(b, keys)
    ensures RowLess(a, b, keys) <==> exists i :: DecidesAt(a, b, keys, i)
    decreases |keys|
  {
    hide ValueLess;
    if keys != [] {
      RowLessIff(a, b, keys[1..]);
      if TieAt(a, b, keys[0]) {
        forall i | DecidesAt(a, b, keys[1..], i) ensures DecidesAt(a, b, keys, i + 1) {
          assert forall j :: 0 < j < i + 1 ==> keys[j] == keys[1..][j - 1];
        }
        forall i | DecidesAt(a, b, keys, i) ensures DecidesAt(a, b, keys[1..], i - 1) {
          assert forall j :: 0 <= j < i - 1 ==> keys[1..][j] == keys[j + 1];
        }
      } else {
        assert RowLess(a, b, keys) ==> DecidesAt(a, b, keys, 0);
        assert forall i :: DecidesAt(a, b, keys, i) ==> i == 0;
      }
    }
  }

  lemma {:induction false} RowLessAsymmetric(a: Row, b: Row, keys: Keys, kinds: seq<Kind>)
    requires HasKeys(a, keys) && HasKeys(b, keys) && Keyed(a, keys, kinds) && Keyed(b, keys, kinds)
    ensures !(RowLess(a, b, keys) && RowLess(b, a, keys))
  {
    hide ValueLess, OfKind;
    if keys != [] {
      assert KeyedAt(a, keys[0], kinds[0]) && KeyedAt(b, keys[0], kinds[0]);
      ValueLessTotal(kinds[0], a[keys[0].column], b[keys[0].column]);
      RowLessAsymmetric(a, b, keys[1..], kinds[1..]);
    }
  }

  /** Not being greater is transitive: rows with equal keys do not break the order. */
  lemma {:induction false} RowLeqTransitive(a: Row, b: Row, c: Row, keys: Keys, kinds: seq<Kind>)
    requires HasKeys(a, keys) && HasKeys(b, keys) && HasKeys(c, keys)
    requires Keyed(a, keys, kinds) && Keyed(b, keys, kinds) && Keyed(c, keys, kinds)
    requires !RowLess(b, a, keys) && !RowLess(c, b, keys)
    ensures !RowLess(c, a, keys)
  {
    hide ValueLess, OfKind;
    if keys != [] {
      var k := kinds[0];
      assert KeyedAt(a, keys[0], k) && KeyedAt(b, keys[0], k) && KeyedAt(c, keys[0], k);
      var x, y, z := a[keys[0].column], b[keys[0].column], c[keys[0].column];
      KeyOrder(k, x, y, z);
      KeyOrder(k, z, y, x);
      if x == y && y == z {
        RowLeqTransitive(a, b, c, keys[1..], kinds[1..]);
      }
    }
  }

  lemma KeyOrder(k: Kind, x: Value, y: Value, z: Value)
    requires OfKind(k, x) && OfKind(k, y) && OfKind(k, z)
    ensures x == y <==> !ValueLess(x, y) && !ValueLess(y, x)
    ensures !(ValueLess(x, y) && ValueLess(y, x)) && !(ValueLess(x, z) && ValueLess(z, x)) && !(ValueLess(y, z) && ValueLess(z, y))
    ensures y == z <==> !ValueLess(y, z) && !ValueLess(z, y)
    ensures x == z <==> !ValueLess(x, z) && !ValueLess(z, x)
    ensures ValueLess(x, y) && ValueLess(y, z) ==> ValueLess(x, z)
  {
    hide ValueLess, OfKind;
    ValueLessTotal(k, x, y);
    ValueLessTotal(k, y, z);
    ValueLessTotal(k, x, z);
    if ValueLess(x, y) && ValueLess(y, z) {
      ValueLessTransitive(k, x, y, z);
    }
  }

  // ----- Collections of rows

  ghost predicate AllKeyed(rows: seq<Row>, keys: Keys, kinds: seq<Kind>) {
    forall i :: 0 <= i < |rows| ==> Keyed(rows[i], keys, kinds) && HasKeys(rows[i], keys)
  }

  /** a may stand before b. */
  predicate Leq(a: Row, b: Row, keys: Keys) {
    HasKeys(a, keys) && HasKeys(b, keys) && !RowLess(b, a, keys)
  }

  ghost predicate Sorted(rows: seq<Row>, keys: Keys) {
    forall i, j :: 0 <= i < j < |rows| ==> Leq(rows[i], rows[j], keys)
  }

  /** In sorted rows the first key column that two rows differ in ascends or descends as asked. */
  lemma SortedDirection(rows: seq<Row>, keys: Keys, kinds: seq<Kind>, i: nat, j: nat, k: nat)
    requires AllKeyed(rows, keys, kinds) && Sorted(rows, keys) && i < j < |rows| && k < |keys|
    requires HasKeys(rows[i], keys) && HasKeys(rows[j], keys)
    requires forall l :: 0 <= l < k ==> rows[i][keys[l].column] == rows[j][keys[l].column]
    requires rows[i][keys[k].column] != rows[j][keys[k].column]
    ensures var x, y := rows[i][keys[k].column], rows[j][keys[k].column];
      if keys[k].ascending then ValueLess(x, y) else ValueLess(y, x)
  {
    hide ValueLess, OfKind, RowLess;
    var a, b := rows[i], rows[j];
    assert Leq(a, b, keys) && Keyed(a, keys, kinds) && Keyed(b, keys, kinds);
    forall l | 0 <= l < k ensures TieAt(b, a, keys[l]) {
      assert KeyedAt(a, keys[l], kinds[l]);
      ValueLessTotal(kinds[l], a[keys[l].column], a[keys[l].column]);
    }
    assert KeyedAt(a, keys[k], kinds[k]) && KeyedAt(b, keys[k], kinds[k]);
    ValueLessTotal(kinds[k], a[keys[k].column], b[keys[k].column]);
    RowLessIff(b, a, keys);
    assert !DecidesAt(b, a, keys, k);
  }

  lemma LeqTransitive(a: Row, b: Row, c: Row, keys: Keys, kinds: seq<Kind>)
    requires Keyed(a, keys, kinds) && Keyed(b, keys, kinds) && Keyed(c, keys, kinds)
    requires Leq(a, b, keys) && Leq(b, c, keys)
    ensures Leq(a, c, keys)
  {
    hide RowLess, Keyed;
    RowLeqTransitive(a, b, c, keys, kinds);
  }

  lemma LeqTotal(a: Row, b: Row, keys: Keys, kinds: seq<Kind>)
    requires Keyed(a, keys, kinds) && Keyed(b, keys, kinds)
    ensures HasKeys(a, keys) && HasKeys(b, keys)
    ensures Leq(a, b, keys) || Leq(b, a, keys)
    ensures RowLess(a, b, keys) ==> Leq(a, b, keys)
  {
    hide RowLess, Keyed;
    KeyedHasKeys(a, keys, kinds);
    KeyedHasKeys(b, keys, kinds);
    RowLessAsymmetric(a, b, keys, kinds);
  }

  // ----- Stable sorting: the one result a stable sort can have

  /** The row goes behind everything it is not less than. */
  function InsertRow(sorted: seq<Row>, r: Row, keys: Keys): (out: seq<Row>)
    requires HasKeys(r, keys) && forall i :: 0 <= i < |sorted| ==> HasKeys(sorted[i], keys)
    ensures multiset(out) == multiset(sorted) + multiset{r}
    ensures |out| == |sorted| + 1 && forall i :: 0 <= i < |out| ==> HasKeys(out[i], keys)
  {
    if sorted == [] then [r]
    else
      var init, last := sorted[..|sorted| - 1], sorted[|sorted| - 1];
      assert sorted == init + [last];
      if RowLess(r, last, keys) then InsertRow(init, r, keys) + [last] else sorted + [r]
  }

  function StableSort(rows: seq<Row>, keys: Keys): (out: seq<Row>)
    requires forall i :: 0 <= i < |rows| ==> HasKeys(rows[i], keys)
    ensures multiset(out) == multiset(rows) && |out| == |rows|
    ensures forall i :: 0 <= i < |out| ==> HasKeys(out[i], keys)
  {
    if rows == [] then []
    else
      var init, last := rows[..|rows| - 1], rows[|rows| - 1];
      assert rows == init + [last];
      InsertRow(StableSort(init, keys), last, keys)
  }

  lemma SameRowsKeyed(a: seq<Row>, b: seq<Row>, keys: Keys, kinds: seq<Kind>)
    requires multiset(a) == multiset(b) && AllKeyed(a, keys, kinds)
    ensures AllKeyed(b, keys, kinds)
  {
    hide Keyed, HasKeys;
    forall i | 0 <= i < |b| ensures Keyed(b[i], keys, kinds) && HasKeys(b[i], keys) {
      assert b[i] in multiset(b);
      assert b[i] in multiset(a);
      assert b[i] in a;
    }
  }

  lemma SortedAppend(rows: seq<Row>, last: Row, keys: Keys)
    requires Sorted(rows, keys) && forall i :: 0 <= i < |rows| ==> Leq(rows[i], last, keys)
    ensures Sorted(rows + [last], keys)
  {
    hide Leq;
  }

  lemma SortedPrefix(rows: seq<Row>, keys: Keys)
    requires Sorted(rows, keys) && rows != []
    ensures Sorted(rows[..|rows| - 1], keys) && AllLeqLast(rows, keys)
  {
    hide Leq;
  }

  ghost predicate AllLeqLast(rows: seq<Row>, keys: Keys)
    requires rows != []
  {
    forall i :: 0 <= i < |rows| - 1 ==> Leq(rows[i], rows[|rows| - 1], keys)
  }

  lemma {:induction false} InsertSorted(sorted: seq<Row>, r: Row, keys: Keys, kinds: seq<Kind>)
    requires AllKeyed(sorted, keys, kinds) && Keyed(r, keys, kinds) && HasKeys(r, keys) && Sorted(sorted, keys)
    ensures Sorted(InsertRow(sorted, r, keys), keys)
  {
    hide RowLess, Keyed, HasKeys, Leq, Sorted, AllLeqLast;
    if sorted == [] {
      SortedOne(r, keys);
    } else {
      var init, last := sorted[..|sorted| - 1], sorted[|sorted| - 1];
      LeqTotal(r, last, keys, kinds);
      SortedPrefix(sorted, keys);
      if RowLess(r, last, keys) {
        InsertSorted(init, r, keys, kinds);
        AllBefore(sorted, InsertRow(init, r, keys), r, keys);
        SortedAppend(InsertRow(init, r, keys), last, keys);
      } else {
        LeqUnlessLess(last, r, keys);
        AllBehind(sorted, r, keys, kinds);
        SortedAppend(sorted, r, keys);
      }
    }
  }

  lemma SortedOne(r: Row, keys: Keys)
    ensures Sorted([r], keys)
  {
  }

  /** Everything up to the last row goes before whatever that goes before. */
  lemma AllBehind(sorted: seq<Row>, r: Row, keys: Keys, kinds: seq<Kind>)
    requires sorted != [] && AllKeyed(sorted, keys, kinds) && Keyed(r, keys, kinds) && AllLeqLast(sorted, keys)
    requires Leq(sorted[|sorted| - 1], r, keys)
    ensures forall i :: 0 <= i < |sorted| ==> Leq(sorted[i], r, keys)
  {
    hide Keyed, HasKeys, Leq;
    forall i | 0 <= i < |sorted| ensures Leq(sorted[i], r, keys) {
      if i < |sorted| - 1 {
        LeqTransitive(sorted[i], sorted[|sorted| - 1], r, keys, kinds);
      }
    }
  }

  lemma LeqUnlessLess(a: Row, b: Row, keys: Keys)
    requires HasKeys(a, keys) && HasKeys(b, keys) && !RowLess(b, a, keys)
    ensures Leq(a, b, keys)
  {
  }

  lemma AllBefore(sorted: seq<Row>, out: seq<Row>, r: Row, keys: Keys)
    requires sorted != [] && AllLeqLast(sorted, keys) && Leq(r, sorted[|sorted| - 1], keys)
    requires multiset(out) == multiset(sorted[..|sorted| - 1]) + multiset{r}
    ensures forall i :: 0 <= i < |out| ==> Leq(out[i], sorted[|sorted| - 1], keys)
  {
    hide Leq;
    var init := sorted[..|sorted| - 1];
    forall i | 0 <= i < |out| ensures Leq(out[i], sorted[|sorted| - 1], keys) {
      assert out[i] in multiset(out);
      if out[i] != r {
        assert out[i] in init;
      }
    }
  }

  lemma {:induction false} StableSortSorted(rows: seq<Row>, keys: Keys, kinds: seq<Kind>)
    requires AllKeyed(rows, keys, kinds)
    ensures Sorted(StableSort(rows, keys), keys)
  {
    hide Keyed, HasKeys, Leq, InsertRow;
    if rows != [] {
      var init, last := rows[..|rows| - 1], rows[|rows| - 1];
      StableSortSorted(init, keys, kinds);
      SameRowsKeyed(init, StableSort(init, keys), keys, kinds);
      InsertSorted(StableSort(init, keys), last, keys, kinds);
    }
  }

  // ----- Stability

  /** The rows with the same keys as x, in order. */
  function SameKeys(rows: seq<Row>, x: Row, keys: Keys): seq<Row>
    requires HasKeys(x, keys) && forall i :: 0 <= i < |rows| ==> HasKeys(rows[i], keys)
  {
    if rows == [] then []
    else
      var init, last := rows[..|rows| - 1], rows[|rows| - 1];
      SameKeys(init, x, keys) + (if !RowLess(last, x, keys) && !RowLess(x, last, keys) then [last] else [])
  }

  lemma SameKeysAppend(rows: seq<Row>, last: Row, x: Row, keys: Keys)
    requires HasKeys(x, keys) && HasKeys(last, keys) && forall i :: 0 <= i < |rows| ==> HasKeys(rows[i], keys)
    ensures SameKeys(rows + [last], x, keys) ==
      SameKeys(rows, x, keys) + (if !RowLess(last, x, keys) && !RowLess(x, last, keys) then [last] else [])
  {
    hide RowLess, HasKeys;
    assert (rows + [last])[..|rows + [last]| - 1] == rows;
  }

  lemma {:induction false} InsertKeepsClass(sorted: seq<Row>, r: Row, x: Row, keys: Keys, kinds: seq<Kind>)
    requires AllKeyed(sorted, keys, kinds) && Keyed(r, keys, kinds) && HasKeys(r, keys) && Keyed(x, keys, kinds) && HasKeys(x, keys)
    ensures SameKeys(InsertRow(sorted, r, keys), x, keys) == SameKeys(sorted + [r], x, keys)
  {
    hide RowLess, Keyed, HasKeys, SameKeys;
    if sorted == [] {
      assert sorted + [r] == [r] == InsertRow(sorted, r, keys);
    } else {
      var init, last := sorted[..|sorted| - 1], sorted[|sorted| - 1];
      assert sorted == init + [last];
      if RowLess(r, last, keys) {
        InsertKeepsClass(init, r, x, keys, kinds);
        SameKeysAppend(InsertRow(init, r, keys), last, x, keys);
        SameKeysAppend(init, r, x, keys);
        SameKeysAppend(init, last, x, keys);
        SameKeysAppend(sorted, r, x, keys);
        NotBoth(r, last, x, keys, kinds);
      }
    }
  }

  /** Two rows in strict order do not both have x's keys. */
  lemma NotBoth(r: Row, last: Row, x: Row, keys: Keys, kinds: seq<Kind>)
    requires Keyed(r, keys, kinds) && Keyed(last, keys, kinds) && Keyed(x, keys, kinds)
    requires HasKeys(r, keys) && HasKeys(last, keys) && HasKeys(x, keys) && RowLess(r, last, keys)
    ensures RowLess(r, x, keys) || RowLess(x, r, keys) || RowLess(last, x, keys) || RowLess(x, last, keys)
  {
    hide RowLess, Keyed, HasKeys;
    if !RowLess(r, x, keys) && !RowLess(x, last, keys) {
      RowLeqTransitive(last, x, r, keys, kinds);
    }
  }

  /** Sorting leaves rows with equal keys in their original order. */
  lemma {:induction false} StableSortIsStable(rows: seq<Row>, x: Row, keys: Keys, kinds: seq<Kind>)
    requires AllKeyed(rows, keys, kinds) && Keyed(x, keys, kinds) && HasKeys(x, keys)
    ensures SameKeys(StableSort(rows, keys), x, keys) == SameKeys(rows, x, keys)
  {
    hide RowLess, Keyed, HasKeys, InsertRow;
    if rows != [] {
      var init, last := rows[..|rows| - 1], rows[|rows| - 1];
      StableSortIsStable(init, x, keys, kinds);
      SameRowsKeyed(init, StableSort(init, keys), keys, kinds);
      InsertKeepsClass(StableSort(init, keys), last, x, keys, kinds);
      SameKeysAppend(StableSort(init, keys), last, x, keys);
    }
  }
}
