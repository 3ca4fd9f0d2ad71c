/** Whole runs of the in-memory B+ tree: the tree holds exactly the records each key has after the
    run, and what it holds does not depend on its fan-out. */
module BPlusTreeRuns {
  import opened Values
  import opened BPlusTreeModel
  import opened BPlusTreeOrder
  import opened BPlusTree

  datatype Op = Add(key: Value, rid: RecordID) | Drop(key: Value, rid: RecordID)

  ghost predicate OpsOk(k: Kind, ops: seq<Op>) {
    forall i :: 0 <= i < |ops| ==> OfKind(k, ops[i].key)
  }

  /** The records under one key after a run: added in order, each removal taking the first
      match away. */
  function RidsAfter(ops: seq<Op>, q: Value): seq<RecordID> {
    if ops == [] then []
    else
      var before := RidsAfter(ops[..|ops| - 1], q);
      match ops[|ops| - 1]
      case Add(key, rid) => if key == q then before + [rid] else before
      case Drop(key, rid) => if key == q then Without(before, rid) else before
  }

  /** Sorted entries that list exactly what the run leaves under every key. */
  ghost predicate Lists(k: Kind, es: seq<Entry>, ops: seq<Op>) {
    EntriesOk(k, es) && forall q :: OfKind(k, q) ==> Find(es, q) == RidsAfter(ops, q)
  }

  method Apply(t: BPlusTree, op: Op)
    requires t.Valid() && OfKind(t.kind, op.key)
    modifies t
    ensures t.Valid()
    ensures t.Contents() == match op
      case Add(key, rid) => InsertEntry(old(t.Contents()), key, rid)
      case Drop(key, rid) => RemoveEntry(old(t.Contents()), key, rid)
  {
    match op
    case Add(key, rid) =>
      t.Insert(key, rid);
    case Drop(key, rid) =>
      var _ := t.Erase(key, rid);
  }

  lemma ListsStep(k: Kind, es: seq<Entry>, ops: seq<Op>, op: Op)
    requires Lists(k, es, ops) && OfKind(k, op.key)
    ensures Lists(k, if op.Add? then InsertEntry(es, op.key, op.rid) else RemoveEntry(es, op.key, op.rid), ops + [op])
  {
    hide ValueLess, OfKind, Find, InsertEntry, RemoveEntry, EntriesOk, Without;
    assert (ops + [op])[..|ops|] == ops;
    if op.Add? {
      InsertKeeps(k, es, op.key, op.rid);
    } else {
      RemoveKeeps(k, es, op.key, op.rid);
    }
    forall q | OfKind(k, q)
      ensures Find(if op.Add? then InsertEntry(es, op.key, op.rid) else RemoveEntry(es, op.key, op.rid), q) == RidsAfter(ops + [op], q)
    {
      if op.Add? {
        FindAfterInsert(k, es, op.key, op.rid, q);
      } else {
        FindAfterRemove(k, es, op.key, op.rid, q);
      }
    }
  }

  /** Any run from the empty tree. */
  method Run(k: Kind, order: int, ops: seq<Op>) returns (t: BPlusTree)
    requires OpsOk(k, ops)
    ensures fresh(t) && t.Valid() && t.kind == k && Lists(k, t.Contents(), ops)
    ensures t.distinctKeys == |t.Contents()|
  {
    hide ValueLess, OfKind, RidsAfter, InsertEntry, RemoveEntry, EntriesOk, Find;
    t := new BPlusTree(k, order);
    NothingListed(k);
    assert ops[..0] == [];
    for i := 0 to |ops|
      invariant t.Valid() && t.kind == k && fresh(t)
      invariant Lists(k, t.Contents(), ops[..i])
    {
      ListsStep(k, t.Contents(), ops[..i], ops[i]);
      assert ops[..i + 1] == ops[..i] + [ops[i]];
      Apply(t, ops[i]);
    }
    assert ops[..|ops|] == ops;
  }

  lemma NothingListed(k: Kind)
    ensures Lists(k, [], [])
  {
    hide ValueLess;
    assert forall q :: !Holds([], q);
  }

  // ----- What a run leaves determines the entries

  lemma SameFind(k: Kind, a: seq<Entry>, b: seq<Entry>)
    requires EntriesOk(k, a) && EntriesOk(k, b) && forall q :: OfKind(k, q) ==> Find(a, q) == Find(b, q)
    ensures forall e :: e in a ==> e in b
  {
    hide ValueLess, OfKind, Find;
    forall i | 0 <= i < |a|
      ensures a[i] in b
    {
      assert EntryOk(k, a[i]);
      FindIs(k, a, i);
      if j :| 0 <= j < |b| && b[j].key == a[i].key {
        FindIs(k, b, j);
        assert b[j] == a[i];
      } else {
        FindNone(k, b, a[i].key);
      }
    }
  }

  lemma FirstLeast(k: Kind, es: seq<Entry>, e: Entry)
    requires EntriesOk(k, es) && e in es
    ensures EntryOk(k, e) && EntryOk(k, es[0]) && (e == es[0] || ValueLess(es[0].key, e.key))
  {
    hide ValueLess, OfKind;
  }

  lemma TailOk(k: Kind, es: seq<Entry>)
    requires EntriesOk(k, es) && es != []
    ensures EntriesOk(k, es[1..]) && es[0] !in es[1..]
    ensures forall e :: e in es <==> e == es[0] || e in es[1..]
  {
    hide ValueLess, OfKind;
    assert es == [es[0]] + es[1..];
    if es[0] in es[1..] {
      var i :| 0 <= i < |es[1..]| && es[1..][i] == es[0];
      assert ValueLess(es[0].key, es[i + 1].key) && EntryOk(k, es[0]);
      ValueLessTotal(k, es[0].key, es[i + 1].key);
    }
  }

  lemma BothEmpty(a: seq<Entry>, b: seq<Entry>)
    requires forall e :: e in a <==> e in b
    ensures a == [] <==> b == []
  {
    if a != [] {
      assert a[0] in b;
    }
    if b != [] {
      assert b[0] in a;
    }
  }

  /** Sorted entries with the same members are the same. */
  lemma {:induction false} SortedUnique(k: Kind, a: seq<Entry>, b: seq<Entry>)
    requires EntriesOk(k, a) && EntriesOk(k, b) && forall e :: e in a <==> e in b
    ensures a == b
  {
    hide ValueLess, OfKind, EntriesOk;
    BothEmpty(a, b);
    if a != [] {
      assert a[0] in b && b[0] in a;
      FirstLeast(k, b, a[0]);
      FirstLeast(k, a, b[0]);
      ValueLessTotal(k, a[0].key, b[0].key);
      TailOk(k, a);
      TailOk(k, b);
      SortedUnique(k, a[1..], b[1..]);
      assert a == [a[0]] + a[1..] && b == [b[0]] + b[1..];
    }
  }

  /** Two runs that leave the same records under every key leave the same entries, whatever
      their order and the fan-out of their trees. */
  lemma RunDecides(k: Kind, a: seq<Entry>, b: seq<Entry>, ops: seq<Op>, ops': seq<Op>)
    requires Lists(k, a, ops) && Lists(k, b, ops')
    ensures a == b <==> forall q :: OfKind(k, q) ==> RidsAfter(ops, q) == RidsAfter(ops', q)
  {
    hide ValueLess, OfKind, RidsAfter, Find;
    if forall q :: OfKind(k, q) ==> RidsAfter(ops, q) == RidsAfter(ops', q) {
      SameFind(k, a, b);
      SameFind(k, b, a);
      SortedUnique(k, a, b);
    }
  }

  /** Every record a run leaves is under exactly the keys the entries list, in a range scan's
      order. */
  lemma {:induction false} BetweenHas(k: Kind, es: seq<Entry>, lo: Bound, hi: Bound, rid: RecordID)
    requires EntriesOk(k, es)
    ensures rid in Between(es, lo, hi) <==> exists i :: 0 <= i < |es| && InRange(es[i].key, lo, hi) && rid in es[i].rids
  {
    hide ValueLess, OfKind, InRange;
    if es != [] {
      var rest := es[1..];
      assert forall i :: 0 <= i < |rest| ==> rest[i] == es[i + 1];
      assert EntriesOk(k, rest) by {
        assert forall i :: 0 <= i < |es| ==> EntryOk(k, es[i]);
      }
      BetweenHas(k, rest, lo, hi, rid);
      if i :| 0 <= i < |rest| && InRange(rest[i].key, lo, hi) && rid in rest[i].rids {
        assert es[i + 1] == rest[i];
      }
      if i :| 0 < i < |es| && InRange(es[i].key, lo, hi) && rid in es[i].rids {
        assert rest[i - 1] == es[i];
      }
    }
  }

  /** A range scan after a run returns a record exactly when some key in the range has it. */
  lemma ScanIsRange(k: Kind, es: seq<Entry>, ops: seq<Op>, lo: Bound, hi: Bound, rid: RecordID)
    requires Lists(k, es, ops)
    ensures rid in Between(es, lo, hi) <==> exists q :: OfKind(k, q) && InRange(q, lo, hi) && rid in RidsAfter(ops, q)
  {
    hide ValueLess, OfKind, InRange, Between, RidsAfter, Find;
    BetweenHas(k, es, lo, hi, rid);
    if i :| 0 <= i < |es| && InRange(es[i].key, lo, hi) && rid in es[i].rids {
      FindIs(k, es, i);
      assert EntryOk(k, es[i]);
      assert rid in RidsAfter(ops, es[i].key);
    }
    if q :| OfKind(k, q) && InRange(q, lo, hi) && rid in RidsAfter(ops, q) {
      if i :| 0 <= i < |es| && es[i].key == q {
        FindIs(k, es, i);
      } else {
        FindNone(k, es, q);
      }
    }
  }
}
