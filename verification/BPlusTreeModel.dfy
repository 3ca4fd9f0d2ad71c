/** What the in-memory B+ tree stands for: a sorted multimap from keys to lists of records. */
module BPlusTreeModel {
  import opened Values

  /** A key and the records that have it, in insertion order. */
  datatype Entry = Entry(key: Value, rids: seq<RecordID>)

  /** `id` names the heap node. */
  datatype Tree =
    | Leaf(id: int, entries: seq<Entry>)
    | Inner(id: int, keys: seq<Value>, kids: seq<Tree>)

  type Bound = Option<Value>

  // ----- The order within one kind

  lemma Order(k: Kind)
    ensures forall a, b :: OfKind(k, a) && OfKind(k, b) ==> !(ValueLess(a, b) && ValueLess(b, a))
    ensures forall a, b :: OfKind(k, a) && OfKind(k, b) && !ValueLess(a, b) && !ValueLess(b, a) ==> a == b
    ensures forall a, b, c :: OfKind(k, a) && OfKind(k, b) && OfKind(k, c) && ValueLess(a, b) && ValueLess(b, c) ==> ValueLess(a, c)
  {
    hide ValueLess, OfKind;
    forall a, b | OfKind(k, a) && OfKind(k, b)
      ensures !(ValueLess(a, b) && ValueLess(b, a))
      ensures !ValueLess(a, b) && !ValueLess(b, a) ==> a == b
    {
      ValueLessTotal(k, a, b);
    }
    forall a, b, c | OfKind(k, a) && OfKind(k, b) && OfKind(k, c) && ValueLess(a, b) && ValueLess(b, c)
      ensures ValueLess(a, c)
    {
      ValueLessTransitive(k, a, b, c);
    }
  }

  predicate Equal(a: Value, b: Value) {
    !ValueLess(a, b) && !ValueLess(b, a)
  }

  // ----- The multimap

  ghost predicate Sorted(es: seq<Entry>) {
    forall i, j :: 0 <= i < j < |es| ==> ValueLess(es[i].key, es[j].key)
  }

  predicate EntryOk(k: Kind, e: Entry) {
    OfKind(k, e.key) && e.rids != []
  }

  ghost predicate EntriesOk(k: Kind, es: seq<Entry>) {
    Sorted(es) && forall i :: 0 <= i < |es| ==> EntryOk(k, es[i])
  }

  /** The number of leading entries below the key. */
  function Position(es: seq<Entry>, key: Value): (p: nat)
    ensures p <= |es|
    ensures forall i :: 0 <= i < p ==> ValueLess(es[i].key, key)
    ensures p < |es| ==> !ValueLess(es[p].key, key)
  {
    if es == [] || !ValueLess(es[0].key, key) then 0 else 1 + Position(es[1..], key)
  }

  predicate Holds(es: seq<Entry>, key: Value) {
    var p := Position(es, key);
    p < |es| && Equal(es[p].key, key)
  }

  /** Appends a record under its key. */
  function InsertEntry(es: seq<Entry>, key: Value, rid: RecordID): seq<Entry> {
    var p := Position(es, key);
    if Holds(es, key) then es[p := Entry(es[p].key, es[p].rids + [rid])]
    else es[..p] + [Entry(key, [rid])] + es[p..]
  }

  /** Without the first occurrence of the record. */
  function Without(rids: seq<RecordID>, rid: RecordID): seq<RecordID> {
    if rids == [] then []
    else if rids[0] == rid then rids[1..]
    else [rids[0]] + Without(rids[1..], rid)
  }

  /** Removes one record under a key; a key left without records goes. */
  function RemoveEntry(es: seq<Entry>, key: Value, rid: RecordID): seq<Entry> {
    var p := Position(es, key);
    if Holds(es, key) then Reduced(es, p, Without(es[p].rids, rid)) else es
  }

  /** An entry's records replaced; without any, the entry goes. */
  function Reduced(es: seq<Entry>, p: nat, rids: seq<RecordID>): seq<Entry>
    requires p < |es|
  {
    if rids == [] then es[..p] + es[p + 1..] else es[p := Entry(es[p].key, rids)]
  }

  /** The records under a key. */
  function Find(es: seq<Entry>, key: Value): seq<RecordID> {
    if Holds(es, key) then es[Position(es, key)].rids else []
  }

  /** Any place that separates the smaller keys from the others is the position. */
  lemma PositionIs(k: Kind, es: seq<Entry>, key: Value, p: nat)
    requires EntriesOk(k, es) && OfKind(k, key) && p <= |es|
    requires forall i :: 0 <= i < p ==> ValueLess(es[i].key, key)
    requires p < |es| ==> !ValueLess(es[p].key, key)
    ensures Position(es, key) == p
  {
    hide ValueLess, Position;
    var q := Position(es, key);
  }

  lemma InsertKeeps(k: Kind, es: seq<Entry>, key: Value, rid: RecordID)
    requires EntriesOk(k, es) && OfKind(k, key)
    ensures EntriesOk(k, InsertEntry(es, key, rid))
  {
    hide ValueLess, OfKind, Position, Holds;
    var p := Position(es, key);
    if Holds(es, key) {
      HeldLess(es, key);
      assert EntryOk(k, es[p]);
    } else {
      AfterPosition(k, es, key);
      SortedInsert(es, p, Entry(key, [rid]));
    }
  }

  lemma HeldLess(es: seq<Entry>, key: Value)
    requires Holds(es, key)
    ensures Position(es, key) < |es|
  {
  }

  /** Without an equal key, everything from the position on is above the key. */
  lemma AfterPosition(k: Kind, es: seq<Entry>, key: Value)
    requires EntriesOk(k, es) && OfKind(k, key) && !Holds(es, key)
    ensures forall i :: Position(es, key) <= i < |es| ==> ValueLess(key, es[i].key)
  {
    hide ValueLess, OfKind, Position;
    Order(k);
    var p := Position(es, key);
    forall i | p <= i < |es|
      ensures ValueLess(key, es[i].key)
    {
      assert EntryOk(k, es[p]) && EntryOk(k, es[i]);
    }
  }

  lemma SortedInsert(es: seq<Entry>, p: nat, e: Entry)
    requires Sorted(es) && p <= |es|
    requires forall i :: 0 <= i < p ==> ValueLess(es[i].key, e.key)
    requires forall i :: p <= i < |es| ==> ValueLess(e.key, es[i].key)
    ensures Sorted(es[..p] + [e] + es[p..])
  {
    hide ValueLess;
  }

  lemma {:induction false} WithoutGone(rids: seq<RecordID>, rid: RecordID)
    ensures rid !in rids ==> Without(rids, rid) == rids
    ensures rid in rids ==> |Without(rids, rid)| == |rids| - 1
  {
    if rids != [] && rids[0] != rid {
      WithoutGone(rids[1..], rid);
      assert rids == [rids[0]] + rids[1..];
    }
  }

  lemma RemoveKeeps(k: Kind, es: seq<Entry>, key: Value, rid: RecordID)
    requires EntriesOk(k, es) && OfKind(k, key)
    ensures EntriesOk(k, RemoveEntry(es, key, rid))
  {
    hide ValueLess, OfKind, Position, Without;
    assert forall i :: 0 <= i < |es| ==> EntryOk(k, es[i]);
  }

  // ----- The multimap laws: what each operation does to the records under every key

  lemma FindIs(k: Kind, es: seq<Entry>, i: nat)
    requires EntriesOk(k, es) && i < |es|
    ensures Find(es, es[i].key) == es[i].rids
  {
    hide ValueLess, OfKind, Position;
    Order(k);
    assert EntryOk(k, es[i]);
    PositionIs(k, es, es[i].key, i);
  }

  lemma FindNone(k: Kind, es: seq<Entry>, key: Value)
    requires EntriesOk(k, es) && OfKind(k, key) && forall i :: 0 <= i < |es| ==> es[i].key != key
    ensures Find(es, key) == []
  {
    hide ValueLess, OfKind, Position;
    Order(k);
    assert forall i :: 0 <= i < |es| ==> EntryOk(k, es[i]);
  }

  lemma HeldAt(k: Kind, es: seq<Entry>, key: Value) returns (p: nat)
    requires EntriesOk(k, es) && OfKind(k, key)
    ensures p == Position(es, key)
    ensures Holds(es, key) ==> p < |es| && es[p].key == key
    ensures forall i :: 0 <= i < |es| && es[i].key == key ==> i == p && Holds(es, key)
  {
    hide ValueLess, OfKind, Position;
    Order(k);
    p := Position(es, key);
    assert forall i :: 0 <= i < |es| ==> EntryOk(k, es[i]);
    forall i | 0 <= i < |es| && es[i].key == key
      ensures i == p && Holds(es, key)
    {
      PositionIs(k, es, key, i);
    }
  }

  lemma FindAfterInsert(k: Kind, es: seq<Entry>, key: Value, rid: RecordID, q: Value)
    requires EntriesOk(k, es) && OfKind(k, key) && OfKind(k, q)
    ensures Find(InsertEntry(es, key, rid), q) == if q == key then Find(es, q) + [rid] else Find(es, q)
  {
    hide ValueLess, OfKind, Position, Holds, Find, EntriesOk;
    var es' := InsertEntry(es, key, rid);
    InsertKeeps(k, es, key, rid);
    var p := HeldAt(k, es, key);
    if q == key {
      FindIs(k, es', p);
      if Holds(es, key) { FindIs(k, es, p); } else { FindNone(k, es, key); }
    } else if i :| 0 <= i < |es| && es[i].key == q {
      FindIs(k, es, i);
      var i' := if Holds(es, key) || i < p then i else i + 1;
      assert es'[i'] == es[i];
      FindIs(k, es', i');
    } else {
      FindNone(k, es, q);
      FindNone(k, es', q);
    }
  }

  lemma FindAfterRemove(k: Kind, es: seq<Entry>, key: Value, rid: RecordID, q: Value)
    requires EntriesOk(k, es) && OfKind(k, key) && OfKind(k, q)
    ensures Find(RemoveEntry(es, key, rid), q) == if q == key then Without(Find(es, q), rid) else Find(es, q)
  {
    hide ValueLess, OfKind, Position, Holds, Find, EntriesOk;
    var es' := RemoveEntry(es, key, rid);
    RemoveKeeps(k, es, key, rid);
    var p := HeldAt(k, es, key);
    if Holds(es, key) {
      FindIs(k, es, p);
      var gone := Without(es[p].rids, rid) == [];
      if q == key {
        if gone { FindNone(k, es', q); } else { FindIs(k, es', p); }
      } else if i :| 0 <= i < |es| && es[i].key == q {
        FindIs(k, es, i);
        var i' := if gone && i > p then i - 1 else i;
        assert es'[i'] == es[i];
        FindIs(k, es', i');
      } else {
        FindNone(k, es, q);
        FindNone(k, es', q);
      }
    } else if q == key {
      FindNone(k, es, q);
    }
  }

  // ----- Changing the middle of a sorted run changes the run

  ghost predicate AllLess(es: seq<Entry>, key: Value) {
    forall i :: 0 <= i < |es| ==> ValueLess(es[i].key, key)
  }

  ghost predicate AllMore(es: seq<Entry>, key: Value) {
    forall i :: 0 <= i < |es| ==> ValueLess(key, es[i].key)
  }

  lemma PositionInMiddle(k: Kind, a: seq<Entry>, b: seq<Entry>, c: seq<Entry>, key: Value)
    requires EntriesOk(k, a + b + c) && OfKind(k, key) && AllLess(a, key) && AllMore(c, key)
    ensures EntriesOk(k, b)
    ensures Position(a + b + c, key) == |a| + Position(b, key)
    ensures Holds(a + b + c, key) == Holds(b, key)
  {
    hide ValueLess, OfKind, Position;
    var es := a + b + c;
    MiddleOk(k, a, b, c);
    var p := Position(b, key);
    if p == |b| && c != [] {
      assert es[|a| + |b|] == c[0] && EntryOk(k, c[0]);
      ValueLessTotal(k, c[0].key, key);
    }
    PositionIs(k, es, key, |a| + p);
  }

  lemma MiddleOk(k: Kind, a: seq<Entry>, b: seq<Entry>, c: seq<Entry>)
    requires EntriesOk(k, a + b + c)
    ensures EntriesOk(k, b)
    ensures forall i :: 0 <= i < |c| ==> EntryOk(k, c[i])
  {
    hide ValueLess, OfKind;
    var es := a + b + c;
    forall i | 0 <= i < |b|
      ensures b[i] == es[|a| + i] && EntryOk(k, b[i])
    {
    }
    forall i | 0 <= i < |c|
      ensures EntryOk(k, c[i])
    {
      assert c[i] == es[|a| + |b| + i];
    }
  }

  lemma SplitInMiddle(a: seq<Entry>, b: seq<Entry>, c: seq<Entry>, p: nat)
    requires p <= |b|
    ensures (a + b + c)[..|a| + p] == a + b[..p]
    ensures (a + b + c)[|a| + p..] == b[p..] + c
    ensures p < |b| ==> (a + b + c)[|a| + p] == b[p]
  {
  }

  lemma UpdateInMiddle(a: seq<Entry>, b: seq<Entry>, c: seq<Entry>, p: nat, e: Entry)
    requires p < |b|
    ensures (a + b + c)[|a| + p] == b[p]
    ensures (a + b + c)[|a| + p := e] == a + b[p := e] + c
  {
  }

  lemma ReducedInMiddle(a: seq<Entry>, b: seq<Entry>, c: seq<Entry>, p: nat, rids: seq<RecordID>)
    requires p < |b|
    ensures Reduced(a + b + c, |a| + p, rids) == a + Reduced(b, p, rids) + c
  {
    if rids == [] {
      SplitInMiddle(a, b, c, p);
      SplitInMiddle(a, b, c, p + 1);
      assert a + b[..p] + (b[p + 1..] + c) == a + (b[..p] + b[p + 1..]) + c;
    } else {
      UpdateInMiddle(a, b, c, p, Entry(b[p].key, rids));
    }
  }

  lemma InsertInMiddle(k: Kind, a: seq<Entry>, b: seq<Entry>, c: seq<Entry>, key: Value, rid: RecordID)
    requires EntriesOk(k, a + b + c) && OfKind(k, key) && AllLess(a, key) && AllMore(c, key)
    ensures InsertEntry(a + b + c, key, rid) == a + InsertEntry(b, key, rid) + c
  {
    hide ValueLess, OfKind, Position, Holds, EntriesOk;
    PositionInMiddle(k, a, b, c, key);
    var p := Position(b, key);
    if Holds(b, key) {
      HeldLess(b, key);
      UpdateInMiddle(a, b, c, p, Entry(b[p].key, b[p].rids + [rid]));
    } else {
      SplitInMiddle(a, b, c, p);
      assert a + b[..p] + [Entry(key, [rid])] + (b[p..] + c) == a + (b[..p] + [Entry(key, [rid])] + b[p..]) + c;
    }
  }

  lemma RemoveInMiddle(k: Kind, a: seq<Entry>, b: seq<Entry>, c: seq<Entry>, key: Value, rid: RecordID)
    requires EntriesOk(k, a + b + c) && OfKind(k, key) && AllLess(a, key) && AllMore(c, key)
    ensures RemoveEntry(a + b + c, key, rid) == a + RemoveEntry(b, key, rid) + c
  {
    hide ValueLess, OfKind, Position, Holds, EntriesOk, Without, Reduced;
    PositionInMiddle(k, a, b, c, key);
    if Holds(b, key) {
      HeldLess(b, key);
      var p := Position(b, key);
      SplitInMiddle(a, b, c, p);
      ReducedInMiddle(a, b, c, p, Without(b[p].rids, rid));
    }
  }

  lemma FindInMiddle(k: Kind, a: seq<Entry>, b: seq<Entry>, c: seq<Entry>, key: Value)
    requires EntriesOk(k, a + b + c) && OfKind(k, key) && AllLess(a, key) && AllMore(c, key)
    ensures Find(a + b + c, key) == Find(b, key)
  {
    hide ValueLess, OfKind, Position, Holds, EntriesOk;
    PositionInMiddle(k, a, b, c, key);
    if Holds(b, key) {
      HeldLess(b, key);
    }
  }
}
