/** Insertion keeps the in-memory B+ tree's order invariant, so its leaves stay one sorted run. */
module BPlusTreeOrder {
  import opened Values
  import opened BPlusTreeModel
  import opened BPlusTreeInsert

  // ----- The leaves of an ordered tree form a sorted run

  ghost predicate Before(a: seq<Entry>, b: seq<Entry>) {
    forall i, j :: 0 <= i < |a| && 0 <= j < |b| ==> ValueLess(a[i].key, b[j].key)
  }

  ghost predicate LeafOk(k: Kind, t: Tree, lo: Bound, hi: Bound) {
    t.Leaf? && EntriesOk(k, t.entries) && Within(t.entries, lo, hi)
  }

  ghost predicate Run(k: Kind, ls: seq<Tree>, lo: Bound, hi: Bound) {
    && (forall i :: 0 <= i < |ls| ==> LeafOk(k, ls[i], lo, hi))
    && forall i, j :: 0 <= i < j < |ls| ==> Before(ls[i].entries, ls[j].entries)
  }

  lemma WithinBefore(k: Kind, a: seq<Entry>, b: seq<Entry>, lo: Bound, m: Value, hi: Bound)
    requires EntriesOk(k, a) && EntriesOk(k, b) && OfKind(k, m)
    requires Within(a, lo, Some(m)) && Within(b, Some(m), hi)
    ensures Before(a, b)
  {
    hide ValueLess, OfKind;
    Order(k);
    forall i, j | 0 <= i < |a| && 0 <= j < |b|
      ensures ValueLess(a[i].key, b[j].key)
    {
      assert EntryOk(k, a[i]) && EntryOk(k, b[j]);
    }
  }

  lemma WithinWider(k: Kind, es: seq<Entry>, lo: Bound, m: Value, hi: Bound)
    requires EntriesOk(k, es) && BoundOk(k, lo) && BoundOk(k, hi) && KeyOk(k, m, lo, hi)
    ensures Within(es, lo, Some(m)) ==> Within(es, lo, hi)
    ensures Within(es, Some(m), hi) ==> Within(es, lo, hi)
  {
    hide ValueLess, OfKind;
    Order(k);
    forall i | 0 <= i < |es|
      ensures Below(es[i].key, Some(m)) ==> Below(es[i].key, hi)
      ensures Above(es[i].key, Some(m)) ==> Above(es[i].key, lo)
    {
      assert EntryOk(k, es[i]);
    }
  }

  lemma RunJoin(k: Kind, a: seq<Tree>, b: seq<Tree>, lo: Bound, m: Value, hi: Bound)
    requires Run(k, a, lo, Some(m)) && Run(k, b, Some(m), hi)
    requires BoundOk(k, lo) && BoundOk(k, hi) && KeyOk(k, m, lo, hi)
    ensures Run(k, a + b, lo, hi)
  {
    hide ValueLess, OfKind, EntriesOk, Within, Before;
    forall i | 0 <= i < |a + b|
      ensures LeafOk(k, (a + b)[i], lo, hi)
    {
      WithinWider(k, (a + b)[i].entries, lo, m, hi);
    }
    forall i, j | 0 <= i < j < |a + b|
      ensures Before((a + b)[i].entries, (a + b)[j].entries)
    {
      if i < |a| <= j {
        WithinBefore(k, a[i].entries, b[j - |a|].entries, lo, m, hi);
      }
    }
  }

  lemma KidBounds(k: Kind, keys: seq<Value>, lo: Bound, hi: Bound, i: nat)
    requires KeysOk(k, keys, lo, hi) && BoundOk(k, lo) && BoundOk(k, hi) && i <= |keys|
    ensures BoundOk(k, KidLo(keys, lo, i)) && BoundOk(k, KidHi(keys, hi, i))
  {
    hide ValueLess, OfKind;
    assert forall j :: 0 <= j < |keys| ==> KeyOk(k, keys[j], lo, hi);
  }

  /** The leaves of consecutive children lie between the separators around them. */
  lemma {:induction false} SliceRun(t: Tree, k: Kind, order: nat, lo: Bound, hi: Bound, depth: nat, a: nat, b: nat)
    requires Ok(t, k, order, lo, hi, depth) && BoundOk(k, lo) && BoundOk(k, hi)
    requires t.Inner? && a < b <= |t.kids|
    ensures Run(k, AllLeaves(t.kids[a..b]), KidLo(t.keys, lo, a), KidHi(t.keys, hi, b - 1))
    decreases t, b
  {
    hide ValueLess, OfKind, Run, KeysOk, AllLeaves;
    var kids, keys := t.kids, t.keys;
    KidBounds(k, keys, lo, hi, a);
    KidBounds(k, keys, lo, hi, b - 1);
    TreeRun(kids[b - 1], k, order, KidLo(keys, lo, b - 1), KidHi(keys, hi, b - 1), depth - 1);
    AllLeavesOne(kids[b - 1]);
    if a == b - 1 {
      assert kids[a..b] == [kids[a]];
    } else {
      SliceRun(t, k, order, lo, hi, depth, a, b - 1);
      assert kids[a..b] == kids[a..b - 1] + [kids[b - 1]];
      AllLeavesAppend(kids[a..b - 1], [kids[b - 1]]);
      SeparatorBetween(k, keys, lo, hi, a, b - 1);
      RunJoin(k, AllLeaves(kids[a..b - 1]), Leaves(kids[b - 1]), KidLo(keys, lo, a), keys[b - 2], KidHi(keys, hi, b - 1));
    }
  }

  lemma SeparatorBetween(k: Kind, keys: seq<Value>, lo: Bound, hi: Bound, a: nat, b: nat)
    requires KeysOk(k, keys, lo, hi) && a < b <= |keys|
    ensures KeyOk(k, keys[b - 1], KidLo(keys, lo, a), KidHi(keys, hi, b))
  {
    hide ValueLess, OfKind;
    assert KeyOk(k, keys[b - 1], lo, hi);
  }

  lemma {:induction false} TreeRun(t: Tree, k: Kind, order: nat, lo: Bound, hi: Bound, depth: nat)
    requires Ok(t, k, order, lo, hi, depth) && BoundOk(k, lo) && BoundOk(k, hi)
    ensures Run(k, Leaves(t), lo, hi)
    decreases t, if t.Inner? then |t.kids| + 1 else 0
  {
    hide ValueLess, OfKind, KeysOk, AllLeaves;
    if t.Inner? {
      hide Run;
      SliceRun(t, k, order, lo, hi, depth, 0, |t.kids|);
      assert t.kids[0..|t.kids|] == t.kids;
    }
  }

  lemma {:induction false} BeforeConcat(a: seq<Entry>, ls: seq<Tree>)
    requires forall i :: 0 <= i < |ls| ==> ls[i].Leaf? && Before(a, ls[i].entries)
    ensures Before(a, Concat(ls))
  {
    hide ValueLess;
    if ls != [] {
      BeforeConcat(a, ls[1..]);
      assert Before(a, ls[0].entries);
    }
  }

  lemma EntriesJoin(k: Kind, a: seq<Entry>, b: seq<Entry>, lo: Bound, hi: Bound)
    requires EntriesOk(k, a) && EntriesOk(k, b) && Within(a, lo, hi) && Within(b, lo, hi) && Before(a, b)
    ensures EntriesOk(k, a + b) && Within(a + b, lo, hi)
  {
    hide ValueLess, OfKind;
  }

  /** A sorted run of leaves holds a sorted run of entries. */
  lemma {:induction false} RunSorted(k: Kind, ls: seq<Tree>, lo: Bound, hi: Bound)
    requires Run(k, ls, lo, hi)
    ensures EntriesOk(k, Concat(ls)) && Within(Concat(ls), lo, hi)
  {
    hide ValueLess, OfKind;
    if ls != [] {
      hide EntriesOk, Within, Before;
      RunSorted(k, ls[1..], lo, hi);
      assert LeafOk(k, ls[0], lo, hi);
      BeforeConcat(ls[0].entries, ls[1..]);
      EntriesJoin(k, ls[0].entries, Concat(ls[1..]), lo, hi);
    }
  }

  /** The entries of an ordered tree are a sorted multimap within its bounds. */
  lemma EntriesSorted(t: Tree, k: Kind, order: nat, lo: Bound, hi: Bound, depth: nat)
    requires Ok(t, k, order, lo, hi, depth) && BoundOk(k, lo) && BoundOk(k, hi)
    ensures EntriesOk(k, Entries(t)) && Within(Entries(t), lo, hi)
  {
    hide ValueLess, OfKind, Ok, Run, EntriesOk, Within;
    TreeRun(t, k, order, lo, hi, depth);
    RunSorted(k, Leaves(t), lo, hi);
  }

  // ----- The key's leaf separates the smaller entries from the larger ones

  ghost predicate LeavesLess(ls: seq<Tree>, key: Value) {
    forall i :: 0 <= i < |ls| && ls[i].Leaf? ==> AllLess(ls[i].entries, key)
  }

  ghost predicate LeavesMore(ls: seq<Tree>, key: Value) {
    forall i :: 0 <= i < |ls| && ls[i].Leaf? ==> AllMore(ls[i].entries, key)
  }

  lemma RunLess(k: Kind, ls: seq<Tree>, lo: Bound, m: Value, hi: Bound, key: Value)
    requires OfKind(k, m) && OfKind(k, key)
    ensures Run(k, ls, lo, Some(m)) && !ValueLess(key, m) ==> LeavesLess(ls, key)
    ensures Run(k, ls, Some(m), hi) && ValueLess(key, m) ==> LeavesMore(ls, key)
  {
    hide ValueLess, OfKind;
    Order(k);
    forall i, j | 0 <= i < |ls| && ls[i].Leaf? && 0 <= j < |ls[i].entries| && EntriesOk(k, ls[i].entries)
      ensures Below(ls[i].entries[j].key, Some(m)) && !ValueLess(key, m) ==> ValueLess(ls[i].entries[j].key, key)
      ensures Above(ls[i].entries[j].key, Some(m)) && ValueLess(key, m) ==> ValueLess(key, ls[i].entries[j].key)
    {
      assert EntryOk(k, ls[i].entries[j]);
    }
  }

  lemma LessJoin(a: seq<Tree>, b: seq<Tree>, key: Value)
    ensures LeavesLess(a, key) && LeavesLess(b, key) ==> LeavesLess(a + b, key)
    ensures LeavesMore(a, key) && LeavesMore(b, key) ==> LeavesMore(a + b, key)
  {
    hide ValueLess, AllLess, AllMore;
  }

  lemma {:induction false} LeafIndexSplits(t: Tree, k: Kind, order: nat, lo: Bound, hi: Bound, depth: nat, key: Value)
    requires Ok(t, k, order, lo, hi, depth) && BoundOk(k, lo) && BoundOk(k, hi)
    requires OfKind(k, key) && Shaped(t)
    ensures LeafIndex(t, key) < |Leaves(t)|
    ensures LeavesLess(Leaves(t)[..LeafIndex(t, key)], key) && LeavesMore(Leaves(t)[LeafIndex(t, key) + 1..], key)
    decreases t
  {
    hide ValueLess, OfKind, Run, KeysOk, AllLeaves, AllLess, AllMore, EntriesOk, Within;
    if t.Inner? {
      hide LeavesLess, LeavesMore;
      var keys, kids := t.keys, t.kids;
      var idx := ChildIndex(keys, key);
      KidBounds(k, keys, lo, hi, idx);
      var u := kids[idx];
      LeafIndexSplits(u, k, order, KidLo(keys, lo, idx), KidHi(keys, hi, idx), depth - 1, key);
      SiblingsLess(t, k, order, lo, hi, depth, key);
      SiblingsMore(t, k, order, lo, hi, depth, key);
      var a, c := AllLeaves(kids[..idx]), AllLeaves(kids[idx + 1..]);
      LeavesAt(kids, idx);
      var ls, p := Leaves(u), LeafIndex(u, key);
      assert Leaves(t) == a + ls + c;
      assert (a + ls + c)[..|a| + p] == a + ls[..p];
      assert (a + ls + c)[|a| + p + 1..] == ls[p + 1..] + c;
      LessJoin(a, ls[..p], key);
      LessJoin(ls[p + 1..], c, key);
    }
  }

  lemma SiblingsLess(t: Tree, k: Kind, order: nat, lo: Bound, hi: Bound, depth: nat, key: Value)
    requires Ok(t, k, order, lo, hi, depth) && BoundOk(k, lo) && BoundOk(k, hi)
    requires OfKind(k, key) && t.Inner?
    ensures LeavesLess(AllLeaves(t.kids[..ChildIndex(t.keys, key)]), key)
  {
    hide ValueLess, OfKind, Run, AllLess, AllLeaves, ChildIndex;
    var keys, kids := t.keys, t.kids;
    var idx := ChildIndex(keys, key);
    assert |kids| == |keys| + 1 && KeysOk(k, keys, lo, hi);
    hide LeavesLess, Ok;
    if idx > 0 {
      SliceRun(t, k, order, lo, hi, depth, 0, idx);
      assert kids[0..idx] == kids[..idx];
      assert KeyOk(k, keys[idx - 1], lo, hi);
      RunLess(k, AllLeaves(kids[..idx]), lo, keys[idx - 1], hi, key);
    } else {
      assert kids[..idx] == [];
      NoLeaves(key);
    }
  }

  /** The leaves from the child after a separator on. */
  lemma SuffixRun(t: Tree, k: Kind, order: nat, lo: Bound, hi: Bound, depth: nat, i: nat)
    requires Ok(t, k, order, lo, hi, depth) && BoundOk(k, lo) && BoundOk(k, hi)
    requires t.Inner? && i < |t.keys| && |t.kids| == |t.keys| + 1
    ensures OfKind(k, t.keys[i]) && Run(k, AllLeaves(t.kids[i + 1..]), Some(t.keys[i]), hi)
  {
    hide ValueLess, OfKind, Run, AllLeaves, Leaves;
    assert KeyOk(k, t.keys[i], lo, hi);
    hide Ok;
    SliceRun(t, k, order, lo, hi, depth, i + 1, |t.kids|);
    assert t.kids[i + 1..|t.kids|] == t.kids[i + 1..];
  }

  lemma SiblingsMore(t: Tree, k: Kind, order: nat, lo: Bound, hi: Bound, depth: nat, key: Value)
    requires Ok(t, k, order, lo, hi, depth) && BoundOk(k, lo) && BoundOk(k, hi)
    requires OfKind(k, key) && t.Inner?
    ensures LeavesMore(AllLeaves(t.kids[ChildIndex(t.keys, key) + 1..]), key)
  {
    hide ValueLess, OfKind, Run, AllMore, AllLeaves, ChildIndex;
    var keys, kids := t.keys, t.kids;
    var idx := ChildIndex(keys, key);
    assert |kids| == |keys| + 1;
    hide LeavesMore, Ok;
    if idx < |keys| {
      SuffixRun(t, k, order, lo, hi, depth, idx);
      RunLess(k, AllLeaves(kids[idx + 1..]), lo, keys[idx], hi, key);
    } else {
      assert kids[idx + 1..] == [];
      NoLeaves(key);
    }
  }

  lemma NoLeaves(key: Value)
    ensures AllLeaves([]) == [] && LeavesLess([], key) && LeavesMore([], key)
  {
  }

  lemma {:induction false} ConcatLess(ls: seq<Tree>, key: Value)
    ensures LeavesLess(ls, key) ==> AllLess(Concat(ls), key)
    ensures LeavesMore(ls, key) ==> AllMore(Concat(ls), key)
  {
    hide ValueLess;
    if ls != [] {
      ConcatLess(ls[1..], key);
      assert forall i :: 0 <= i < |ls[1..]| ==> ls[1..][i] == ls[i + 1];
    }
  }

  // ----- Insertion keeps the order

  ghost predicate KidsOk(k: Kind, order: nat, keys: seq<Value>, kids: seq<Tree>, lo: Bound, hi: Bound, depth: nat) {
    && |kids| == |keys| + 1 && KeysOk(k, keys, lo, hi)
    && forall i :: 0 <= i < |kids| ==> Ok(kids[i], k, order, KidLo(keys, lo, i), KidHi(keys, hi, i), depth)
  }

  lemma IncreasingInsert(k: Kind, keys: seq<Value>, idx: nat, m: Value, lo: Bound, hi: Bound)
    requires KeysOk(k, keys, lo, hi) && BoundOk(k, lo) && BoundOk(k, hi) && idx <= |keys|
    requires KeyOk(k, m, KidLo(keys, lo, idx), KidHi(keys, hi, idx))
    ensures KeysOk(k, keys[..idx] + [m] + keys[idx..], lo, hi)
  {
    hide ValueLess, OfKind;
    Order(k);
    forall i | 0 <= i < |keys|
      ensures KeyOk(k, keys[i], lo, hi)
      ensures i < idx ==> ValueLess(keys[i], m)
      ensures i >= idx ==> ValueLess(m, keys[i])
    {
      assert idx > 0 ==> KeyOk(k, keys[idx - 1], lo, hi);
      assert idx < |keys| ==> KeyOk(k, keys[idx], lo, hi);
    }
    KeyWider(k, keys, idx, m, lo, hi);
  }

  lemma KeyWider(k: Kind, keys: seq<Value>, idx: nat, m: Value, lo: Bound, hi: Bound)
    requires KeysOk(k, keys, lo, hi) && BoundOk(k, lo) && BoundOk(k, hi) && idx <= |keys|
    requires KeyOk(k, m, KidLo(keys, lo, idx), KidHi(keys, hi, idx))
    ensures KeyOk(k, m, lo, hi)
  {
    hide ValueLess, OfKind;
    Order(k);
    assert idx > 0 ==> KeyOk(k, keys[idx - 1], lo, hi);
    assert idx < |keys| ==> KeyOk(k, keys[idx], lo, hi);
  }

  lemma KidsInsert(k: Kind, order: nat, keys: seq<Value>, kids: seq<Tree>, lo: Bound, hi: Bound, depth: nat, idx: nat, l: Tree, s: Split)
    requires KidsOk(k, order, keys, kids, lo, hi, depth) && BoundOk(k, lo) && BoundOk(k, hi) && idx < |kids|
    requires KeyOk(k, s.key, KidLo(keys, lo, idx), KidHi(keys, hi, idx))
    requires Ok(l, k, order, KidLo(keys, lo, idx), Some(s.key), depth) && Ok(s.right, k, order, Some(s.key), KidHi(keys, hi, idx), depth)
    ensures var kids' := kids[idx := l];
      KidsOk(k, order, keys[..idx] + [s.key] + keys[idx..], kids'[..idx + 1] + [s.right] + kids'[idx + 1..], lo, hi, depth)
  {
    hide ValueLess, OfKind, Ok, KeysOk;
    IncreasingInsert(k, keys, idx, s.key, lo, hi);
    var keys' := keys[..idx] + [s.key] + keys[idx..];
    var kids1 := kids[idx := l];
    var kids' := kids1[..idx + 1] + [s.right] + kids1[idx + 1..];
    forall i | 0 <= i < |kids'|
      ensures Ok(kids'[i], k, order, KidLo(keys', lo, i), KidHi(keys', hi, i), depth)
    {
      if i < idx {
        assert kids'[i] == kids[i] && KidLo(keys', lo, i) == KidLo(keys, lo, i) && KidHi(keys', hi, i) == KidHi(keys, hi, i);
      } else if i > idx + 1 {
        assert kids'[i] == kids[i - 1] && KidLo(keys', lo, i) == KidLo(keys, lo, i - 1) && KidHi(keys', hi, i) == KidHi(keys, hi, i - 1);
      }
    }
  }

  lemma KidsSplit(k: Kind, order: nat, keys: seq<Value>, kids: seq<Tree>, lo: Bound, hi: Bound, depth: nat, mid: nat)
    requires KidsOk(k, order, keys, kids, lo, hi, depth) && mid < |keys|
    ensures KidsOk(k, order, keys[..mid], kids[..mid + 1], lo, Some(keys[mid]), depth)
    ensures KidsOk(k, order, keys[mid + 1..], kids[mid + 1..], Some(keys[mid]), hi, depth)
    ensures KeyOk(k, keys[mid], lo, hi)
  {
    hide ValueLess, OfKind, Ok;
    assert KeyOk(k, keys[mid], lo, hi);
    forall i | 0 <= i < |keys|
      ensures KeyOk(k, keys[i], lo, hi)
    {
    }
    var l, r := kids[..mid + 1], kids[mid + 1..];
    forall i | 0 <= i < |l|
      ensures Ok(l[i], k, order, KidLo(keys[..mid], lo, i), KidHi(keys[..mid], Some(keys[mid]), i), depth)
    {
      assert l[i] == kids[i];
    }
    forall i | 0 <= i < |r|
      ensures Ok(r[i], k, order, KidLo(keys[mid + 1..], Some(keys[mid]), i), KidHi(keys[mid + 1..], hi, i), depth)
    {
      assert r[i] == kids[mid + 1 + i];
    }
  }

  /** Both halves of an insertion are ordered trees, on their own sides of the separator. */
  ghost predicate InsertedOk(i: Inserted, k: Kind, order: nat, lo: Bound, hi: Bound, depth: nat) {
    if i.split.None? then Ok(i.tree, k, order, lo, hi, depth)
    else
      var s := i.split.value;
      && KeyOk(k, s.key, lo, hi)
      && Ok(i.tree, k, order, lo, Some(s.key), depth) && Ok(s.right, k, order, Some(s.key), hi, depth)
  }

  lemma AdoptOk(k: Kind, order: nat, id: int, keys: seq<Value>, kids: seq<Tree>, lo: Bound, hi: Bound, depth: nat, idx: nat, l: Tree, s: Split, nextId: int)
    requires KidsOk(k, order, keys, kids, lo, hi, depth) && BoundOk(k, lo) && BoundOk(k, hi) && idx < |kids| && |keys| <= order && order >= 3
    requires KeyOk(k, s.key, KidLo(keys, lo, idx), KidHi(keys, hi, idx))
    requires Ok(l, k, order, KidLo(keys, lo, idx), Some(s.key), depth) && Ok(s.right, k, order, Some(s.key), KidHi(keys, hi, idx), depth)
    ensures InsertedOk(Adopt(id, keys, kids[idx := l], idx, s, nextId, order), k, order, lo, hi, depth + 1)
  {
    hide ValueLess, OfKind, KeysOk, KeyOk;
    KidsInsert(k, order, keys, kids, lo, hi, depth, idx, l, s);
    var kids1 := kids[idx := l];
    var keys' := keys[..idx] + [s.key] + keys[idx..];
    var kids' := kids1[..idx + 1] + [s.right] + kids1[idx + 1..];
    InnerOk(k, order, id, keys', kids', lo, hi, depth);
    if |keys'| > order {
      var mid := |keys'| / 2;
      KidsSplit(k, order, keys', kids', lo, hi, depth, mid);
      InnerOk(k, order, id, keys'[..mid], kids'[..mid + 1], lo, Some(keys'[mid]), depth);
      InnerOk(k, order, nextId, keys'[mid + 1..], kids'[mid + 1..], Some(keys'[mid]), hi, depth);
      hide KidsOk, Ok;
    } else {
      hide KidsOk, Ok;
    }
  }

  lemma InnerOk(k: Kind, order: nat, id: int, keys: seq<Value>, kids: seq<Tree>, lo: Bound, hi: Bound, depth: nat)
    requires KidsOk(k, order, keys, kids, lo, hi, depth)
    ensures |keys| <= order ==> Ok(Inner(id, keys, kids), k, order, lo, hi, depth + 1)
  {
    hide KeysOk;
  }

  lemma SplitLeafOk(k: Kind, order: nat, id: int, es: seq<Entry>, lo: Bound, hi: Bound, nextId: int)
    requires EntriesOk(k, es) && Within(es, lo, hi) && |es| <= order + 1 && order >= 3
    requires BoundOk(k, lo) && BoundOk(k, hi) && |es| >= 2
    ensures InsertedOk(SplitLeaf(id, es, nextId), k, order, lo, hi, 0)
  {
    hide ValueLess, OfKind;
    var mid := |es| / 2;
    assert EntryOk(k, es[0]) && EntryOk(k, es[mid]);
    Order(k);
    var m := es[mid].key;
    assert ValueLess(es[0].key, m) && Above(es[0].key, lo);
    assert StrictlyAbove(m, lo);
    assert Within(es[..mid], lo, Some(m));
    HalfAbove(k, es, mid);
    assert Within(es[mid..], Some(m), hi);
  }

  lemma InsertLeafOk(k: Kind, order: nat, id: int, es: seq<Entry>, key: Value, rid: RecordID, lo: Bound, hi: Bound, nextId: int)
    requires EntriesOk(k, es) && Within(es, lo, hi) && |es| <= order && order >= 3
    requires BoundOk(k, lo) && BoundOk(k, hi) && OfKind(k, key) && Above(key, lo) && Below(key, hi)
    ensures InsertedOk(InsertLeaf(id, es, key, rid, nextId, order), k, order, lo, hi, 0)
  {
    hide ValueLess, OfKind, EntriesOk, Within, InsertEntry, Holds, Above, Below, SplitLeaf;
    var es' := InsertEntry(es, key, rid);
    InsertKeeps(k, es, key, rid);
    InsertWithin(es, key, rid, lo, hi);
    if !Holds(es, key) && |es'| > order {
      SplitLeafOk(k, order, id, es', lo, hi, nextId);
    }
  }

  lemma HalfAbove(k: Kind, es: seq<Entry>, mid: nat)
    requires EntriesOk(k, es) && mid < |es|
    ensures forall i :: mid <= i < |es| ==> !ValueLess(es[i].key, es[mid].key)
  {
    hide ValueLess, OfKind;
    Order(k);
    forall i | mid <= i < |es|
      ensures !ValueLess(es[i].key, es[mid].key)
    {
      assert EntryOk(k, es[i]) && EntryOk(k, es[mid]);
    }
  }

  lemma InsertWithin(es: seq<Entry>, key: Value, rid: RecordID, lo: Bound, hi: Bound)
    requires Within(es, lo, hi) && Above(key, lo) && Below(key, hi)
    ensures Within(InsertEntry(es, key, rid), lo, hi)
    ensures |InsertEntry(es, key, rid)| == if Holds(es, key) then |es| else |es| + 1
  {
    hide ValueLess, Position, Above, Below, Holds;
    if Holds(es, key) {
      HeldLess(es, key);
    }
  }

  /** The child a key descends into is the one whose bounds take it. */
  lemma ChildTakes(keys: seq<Value>, key: Value, lo: Bound, hi: Bound)
    requires Above(key, lo) && Below(key, hi)
    ensures var idx := ChildIndex(keys, key);
      Above(key, KidLo(keys, lo, idx)) && Below(key, KidHi(keys, hi, idx))
  {
    hide ValueLess;
  }

  /** Insertion keeps the order: at most one split, its separator strictly inside the bounds. */
  lemma {:induction false} InsertOk(t: Tree, k: Kind, order: nat, lo: Bound, hi: Bound, depth: nat, key: Value, rid: RecordID, nextId: int)
    requires Ok(t, k, order, lo, hi, depth) && Shaped(t) && BoundOk(k, lo) && BoundOk(k, hi) && order >= 3
    requires OfKind(k, key) && Above(key, lo) && Below(key, hi)
    ensures InsertedOk(InsertTree(t, key, rid, order, nextId), k, order, lo, hi, depth)
    decreases t
  {
    hide ValueLess, OfKind, KeysOk, KeyOk, InsertEntry, InsertLeaf, EntriesOk, Within;
    match t
    case Leaf(id, es) =>
      InsertLeafOk(k, order, id, es, key, rid, lo, hi, nextId);
    case Inner(id, keys, kids) =>
      hide Adopt;
      var idx := ChildIndex(keys, key);
      ChildTakes(keys, key, lo, hi);
      KidBounds(k, keys, lo, hi, idx);
      InsertOk(kids[idx], k, order, KidLo(keys, lo, idx), KidHi(keys, hi, idx), depth - 1, key, rid, nextId);
      var below := InsertTree(kids[idx], key, rid, order, nextId);
      assert KidsOk(k, order, keys, kids, lo, hi, depth - 1);
      if below.split.None? {
        InnerOk(k, order, id, keys, kids[idx := below.tree], lo, hi, depth - 1);
      } else {
        hide Ok;
        AdoptOk(k, order, id, keys, kids, lo, hi, depth - 1, idx, below.tree, below.split.value, below.nextId);
      }
  }

  // ----- Insertion is insertion into the multimap

  /** The entries of the new leaves are the old leaf's with the record inserted. */
  lemma InsertLeafEntries(id: int, es: seq<Entry>, key: Value, rid: RecordID, nextId: int, order: nat)
    requires order >= 3
    ensures Concat(Grown(InsertLeaf(id, es, key, rid, nextId, order))) == InsertEntry(es, key, rid)
  {
    hide InsertEntry, Holds;
    var i := InsertLeaf(id, es, key, rid, nextId, order);
    ConcatLeaf(i.tree);
    if i.split.Some? {
      ConcatLeaf(i.split.value.right);
      ConcatAppend([i.tree], [i.split.value.right]);
    }
  }

  lemma ConcatAround(a: seq<Tree>, b: seq<Tree>, c: seq<Tree>)
    ensures Concat(a + b + c) == Concat(a) + Concat(b) + Concat(c)
  {
    ConcatAppend(a + b, c);
    ConcatAppend(a, b);
  }

  lemma EntriesAround(ls: seq<Tree>, p: nat)
    requires p < |ls| && ls[p].Leaf?
    ensures Concat(ls) == Concat(ls[..p]) + ls[p].entries + Concat(ls[p + 1..])
  {
    hide Concat;
    Around(ls, p);
    ConcatAround(ls[..p], [ls[p]], ls[p + 1..]);
    ConcatLeaf(ls[p]);
  }

  /** A place in a leaf list where a key belongs. */
  ghost predicate KeyAt(k: Kind, ls: seq<Tree>, p: nat, key: Value) {
    && EntriesOk(k, Concat(ls)) && OfKind(k, key) && p < |ls| && ls[p].Leaf?
    && AllLess(Concat(ls[..p]), key) && AllMore(Concat(ls[p + 1..]), key)
  }

  lemma KeyAtIndex(t: Tree, k: Kind, order: nat, depth: nat, key: Value)
    requires Ok(t, k, order, None, None, depth) && Shaped(t) && OfKind(k, key)
    ensures KeyAt(k, Leaves(t), LeafIndex(t, key), key)
  {
    hide ValueLess, OfKind, Ok, EntriesOk, AllLess, AllMore;
    EntriesSorted(t, k, order, None, None, depth);
    LeafIndexSplits(t, k, order, None, None, depth, key);
    ConcatLess(Leaves(t)[..LeafIndex(t, key)], key);
    ConcatLess(Leaves(t)[LeafIndex(t, key) + 1..], key);
    LeavesAreLeaves(t);
  }

  /** The whole tree's entries after an insertion. */
  lemma InsertEntries(t: Tree, k: Kind, order: nat, depth: nat, key: Value, rid: RecordID, nextId: int)
    requires Ok(t, k, order, None, None, depth) && Shaped(t) && order >= 3 && OfKind(k, key)
    ensures Concat(Grown(InsertTree(t, key, rid, order, nextId))) == InsertEntry(Entries(t), key, rid)
  {
    hide ValueLess, OfKind, Ok, EntriesOk, AllLess, AllMore, InsertTree, InsertEntry, InsertLeaf, Concat, Grown;
    var ls, p := Leaves(t), LeafIndex(t, key);
    KeyAtIndex(t, k, order, depth, key);
    InsertLeaves(t, key, rid, order, nextId);
    InsertLeafEntries(ls[p].id, ls[p].entries, key, rid, nextId, order);
    ConcatAround(ls[..p], Grown(InsertLeaf(ls[p].id, ls[p].entries, key, rid, nextId, order)), ls[p + 1..]);
    EntriesAround(ls, p);
    InsertInMiddle(k, Concat(ls[..p]), ls[p].entries, Concat(ls[p + 1..]), key, rid);
  }

  /** A whole tree: ordered, its root not with just one child. */
  ghost predicate RootOk(t: Tree, k: Kind, order: nat, depth: nat) {
    Ok(t, k, order, None, None, depth) && (t.Inner? ==> |t.kids| >= 2)
  }

  /** Insertion at the root: an ordered tree whose entries are the multimap's with the record
      inserted, one level deeper exactly when the root has split. */
  lemma InsertRootOk(t: Tree, k: Kind, order: nat, depth: nat, key: Value, rid: RecordID, nextId: int)
    requires RootOk(t, k, order, depth) && Shaped(t) && order >= 3 && OfKind(k, key)
    ensures var i := InsertTree(t, key, rid, order, nextId);
      && RootOk(NewRoot(i), k, order, if i.split.None? then depth else depth + 1)
      && Entries(NewRoot(i)) == InsertEntry(Entries(t), key, rid)
  {
    hide ValueLess, OfKind, EntriesOk, InsertTree, InsertEntry, Leaves, Concat, Grown;
    var i := InsertTree(t, key, rid, order, nextId);
    InsertOk(t, k, order, None, None, depth, key, rid, nextId);
    InsertEntries(t, k, order, depth, key, rid, nextId);
    NewRootLeaves(i);
    InsertKids(t, key, rid, order, nextId);
  }

  /** An inner root keeps at least two children, in each half after a split. */
  lemma InsertKids(t: Tree, key: Value, rid: RecordID, order: nat, nextId: int)
    requires Shaped(t) && order >= 3
    ensures var i := InsertTree(t, key, rid, order, nextId);
      (t.Inner? <==> i.tree.Inner?) && (t.Inner? && |t.kids| >= 2 && i.split.None? ==> |i.tree.kids| >= 2)
  {
    hide ValueLess, InsertEntry;
  }

  // ----- Reading a range

  predicate InRange(key: Value, lo: Bound, hi: Bound) {
    (lo.None? || !ValueLess(key, lo.value)) && (hi.None? || !ValueLess(hi.value, key))
  }

  /** Both bounds belong to the range. */
  lemma RangeMeans(k: Kind, key: Value, lo: Value, hi: Value)
    requires OfKind(k, key) && OfKind(k, lo) && OfKind(k, hi)
    ensures InRange(key, Some(lo), Some(hi)) <==> (lo == key || ValueLess(lo, key)) && (key == hi || ValueLess(key, hi))
    ensures InRange(key, Some(lo), None) <==> lo == key || ValueLess(lo, key)
    ensures InRange(key, None, Some(hi)) <==> key == hi || ValueLess(key, hi)
    ensures InRange(key, None, None)
  {
    ValueLessTotal(k, lo, key);
    ValueLessTotal(k, key, hi);
  }

  /** The records of the keys in a range, in key order. */
  function Between(es: seq<Entry>, lo: Bound, hi: Bound): seq<RecordID> {
    if es == [] then [] else (if InRange(es[0].key, lo, hi) then es[0].rids else []) + Between(es[1..], lo, hi)
  }

  lemma {:induction false} BetweenAppend(a: seq<Entry>, b: seq<Entry>, lo: Bound, hi: Bound)
    ensures Between(a + b, lo, hi) == Between(a, lo, hi) + Between(b, lo, hi)
  {
    hide InRange, Between;
    if a == [] {
      assert a + b == b;
      BetweenNone(lo, hi);
    } else {
      BetweenAppend(a[1..], b, lo, hi);
      var ab := a + b;
      assert ab[0] == a[0] && ab[1..] == a[1..] + b;
      BetweenFirst(a, lo, hi);
      BetweenFirst(ab, lo, hi);
      var h := if InRange(a[0].key, lo, hi) then a[0].rids else [];
      assert h + (Between(a[1..], lo, hi) + Between(b, lo, hi)) == (h + Between(a[1..], lo, hi)) + Between(b, lo, hi);
    }
  }

  lemma BetweenNone(lo: Bound, hi: Bound)
    ensures Between([], lo, hi) == []
  {
  }

  lemma BetweenFirst(es: seq<Entry>, lo: Bound, hi: Bound)
    requires es != []
    ensures Between(es, lo, hi) == (if InRange(es[0].key, lo, hi) then es[0].rids else []) + Between(es[1..], lo, hi)
  {
  }

  lemma {:induction false} NoneBetween(es: seq<Entry>, lo: Bound, hi: Bound)
    requires forall i :: 0 <= i < |es| ==> !InRange(es[i].key, lo, hi)
    ensures Between(es, lo, hi) == []
  {
    hide InRange;
    if es != [] {
      NoneBetween(es[1..], lo, hi);
    }
  }

  /** Once a key is above the range, so is everything after it. */
  lemma PastRange(k: Kind, es: seq<Entry>, i: nat, lo: Bound, hi: Value)
    requires EntriesOk(k, es) && i < |es| && OfKind(k, hi) && ValueLess(hi, es[i].key)
    ensures Between(es[i..], lo, Some(hi)) == []
  {
    hide ValueLess, OfKind;
    Order(k);
    forall j | i <= j < |es|
      ensures ValueLess(hi, es[j].key)
    {
      assert EntryOk(k, es[i]) && EntryOk(k, es[j]);
    }
    NoneBetween(es[i..], lo, Some(hi));
  }

  /** What lies below the range is not in it. */
  lemma BeforeRange(es: seq<Entry>, lo: Value, hi: Bound)
    requires AllLess(es, lo)
    ensures Between(es, Some(lo), hi) == []
  {
    hide ValueLess;
    NoneBetween(es, Some(lo), hi);
  }
}
