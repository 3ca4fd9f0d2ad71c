/** The shape of the in-memory B+ tree, recursive insertion with splits, and what a split
    leaves unchanged. */
module BPlusTreeInsert {
  import opened Values
  import opened BPlusTreeModel

  // ----- Leaves, left to right

  function Leaves(t: Tree): seq<Tree>
    decreases t
  {
    match t
    case Leaf(_, _) => [t]
    case Inner(_, _, kids) => AllLeaves(kids)
  }

  function AllLeaves(kids: seq<Tree>): seq<Tree>
    decreases kids
  {
    if kids == [] then [] else Leaves(kids[0]) + AllLeaves(kids[1..])
  }

  function Concat(ls: seq<Tree>): seq<Entry> {
    if ls == [] then []
    else (if ls[0].Leaf? then ls[0].entries else []) + Concat(ls[1..])
  }

  /** The entries of a tree, in order. */
  function Entries(t: Tree): seq<Entry> {
    Concat(Leaves(t))
  }

  lemma {:induction false} AllLeavesAppend(a: seq<Tree>, b: seq<Tree>)
    ensures AllLeaves(a + b) == AllLeaves(a) + AllLeaves(b)
  {
    hide Leaves;
    if a == [] {
      assert a + b == b;
    } else {
      AllLeavesAppend(a[1..], b);
      assert (a + b)[1..] == a[1..] + b;
      assert Leaves(a[0]) + (AllLeaves(a[1..]) + AllLeaves(b)) == AllLeaves(a) + AllLeaves(b);
    }
  }

  lemma AllLeavesOne(t: Tree)
    ensures AllLeaves([t]) == Leaves(t)
  {
    assert [t][1..] == [];
  }

  lemma AllLeavesTwo(t: Tree, u: Tree)
    ensures AllLeaves([t, u]) == Leaves(t) + Leaves(u)
  {
    AllLeavesOne(u);
    assert [t, u][1..] == [u];
  }

  lemma Around<T>(s: seq<T>, i: nat)
    requires i < |s|
    ensures s == s[..i] + [s[i]] + s[i + 1..]
  {
  }

  /** A child's leaves among its siblings'. */
  lemma LeavesAt(kids: seq<Tree>, i: nat)
    requires i < |kids|
    ensures AllLeaves(kids) == AllLeaves(kids[..i]) + Leaves(kids[i]) + AllLeaves(kids[i + 1..])
  {
    hide AllLeaves, Leaves;
    Around(kids, i);
    AllLeavesAppend(kids[..i] + [kids[i]], kids[i + 1..]);
    AllLeavesAppend(kids[..i], [kids[i]]);
    AllLeavesOne(kids[i]);
  }

  lemma LeavesReplaced(kids: seq<Tree>, i: nat, t: Tree)
    requires i < |kids|
    ensures AllLeaves(kids[i := t]) == AllLeaves(kids[..i]) + Leaves(t) + AllLeaves(kids[i + 1..])
  {
    hide AllLeaves, Leaves;
    var kids' := kids[i := t];
    assert kids'[..i] == kids[..i] && kids'[i + 1..] == kids[i + 1..];
    LeavesAt(kids', i);
  }

  lemma {:induction false} ConcatAppend(a: seq<Tree>, b: seq<Tree>)
    ensures Concat(a + b) == Concat(a) + Concat(b)
  {
    if a == [] {
      assert a + b == b;
    } else {
      ConcatAppend(a[1..], b);
      assert (a + b)[1..] == a[1..] + b;
    }
  }

  lemma ConcatLeaf(t: Tree)
    requires t.Leaf?
    ensures Concat([t]) == t.entries
  {
    assert [t][1..] == [];
  }

  lemma {:induction false} LeavesAreLeaves(t: Tree)
    ensures forall i :: 0 <= i < |Leaves(t)| ==> Leaves(t)[i].Leaf?
    decreases t
  {
    if t.Inner? {
      AllLeavesAreLeaves(t.kids);
    }
  }

  lemma {:induction false} AllLeavesAreLeaves(kids: seq<Tree>)
    ensures forall i :: 0 <= i < |AllLeaves(kids)| ==> AllLeaves(kids)[i].Leaf?
    decreases kids
  {
    if kids != [] {
      LeavesAreLeaves(kids[0]);
      AllLeavesAreLeaves(kids[1..]);
    }
  }

  // ----- Insertion

  /** The number of leading separators at or below the key: the child to descend into. */
  function ChildIndex(keys: seq<Value>, key: Value): (c: nat)
    ensures c <= |keys|
    ensures forall i :: 0 <= i < c ==> !ValueLess(key, keys[i])
    ensures c < |keys| ==> ValueLess(key, keys[c])
  {
    if keys == [] || ValueLess(key, keys[0]) then 0 else 1 + ChildIndex(keys[1..], key)
  }

  /** What a node became, with the new node to its right and the key that separates them, and
      the next unused node name. */
  datatype Split = Split(key: Value, right: Tree)

  datatype Inserted = Inserted(tree: Tree, split: Option<Split>, nextId: int)

  function SplitLeaf(id: int, es: seq<Entry>, nextId: int): Inserted
    requires |es| >= 2
  {
    var mid := |es| / 2;
    Inserted(Leaf(id, es[..mid]), Some(Split(es[mid].key, Leaf(nextId, es[mid..]))), nextId + 1)
  }

  function SplitInner(id: int, keys: seq<Value>, kids: seq<Tree>, nextId: int): Inserted
    requires |keys| >= 1 && |kids| == |keys| + 1
  {
    var mid := |keys| / 2;
    Inserted(Inner(id, keys[..mid], kids[..mid + 1]), Some(Split(keys[mid], Inner(nextId, keys[mid + 1..], kids[mid + 1..]))), nextId + 1)
  }

  /** A separator and the child to its right taken in, splitting the node when it is overfull. */
  function Adopt(id: int, keys: seq<Value>, kids: seq<Tree>, idx: nat, s: Split, nextId: int, order: nat): Inserted
    requires idx < |kids| == |keys| + 1
  {
    var keys' := keys[..idx] + [s.key] + keys[idx..];
    var kids' := kids[..idx + 1] + [s.right] + kids[idx + 1..];
    if |keys'| > order then SplitInner(id, keys', kids', nextId) else Inserted(Inner(id, keys', kids'), None, nextId)
  }

  predicate Shaped(t: Tree)
    decreases t
  {
    t.Inner? ==> |t.kids| == |t.keys| + 1 && forall i :: 0 <= i < |t.kids| ==> Shaped(t.kids[i])
  }

  /** A leaf splits when a new key makes it overfull. */
  function InsertLeaf(id: int, es: seq<Entry>, key: Value, rid: RecordID, nextId: int, order: nat): Inserted
    requires order >= 3
  {
    var es' := InsertEntry(es, key, rid);
    if !Holds(es, key) && |es'| > order then SplitLeaf(id, es', nextId) else Inserted(Leaf(id, es'), None, nextId)
  }

  function InsertTree(t: Tree, key: Value, rid: RecordID, order: nat, nextId: int): Inserted
    requires Shaped(t) && order >= 3
    decreases t
  {
    match t
    case Leaf(id, es) => InsertLeaf(id, es, key, rid, nextId, order)
    case Inner(id, keys, kids) =>
      var idx := ChildIndex(keys, key);
      var below := InsertTree(kids[idx], key, rid, order, nextId);
      if below.split.None? then Inserted(Inner(id, keys, kids[idx := below.tree]), None, below.nextId)
      else Adopt(id, keys, kids[idx := below.tree], idx, below.split.value, below.nextId, order)
  }

  /** The root after an insertion: above the old one if that has split. */
  function NewRoot(i: Inserted): Tree {
    if i.split.None? then i.tree else Inner(i.nextId, [i.split.value.key], [i.tree, i.split.value.right])
  }

  /** All leaves of an insertion's result. */
  function Grown(i: Inserted): seq<Tree> {
    Leaves(i.tree) + if i.split.None? then [] else Leaves(i.split.value.right)
  }

  // ----- Insertion changes one leaf

  /** The place of a key's leaf among the leaves. */
  function LeafIndex(t: Tree, key: Value): nat
    requires Shaped(t)
    decreases t
  {
    match t
    case Leaf(_, _) => 0
    case Inner(_, keys, kids) =>
      var idx := ChildIndex(keys, key);
      |AllLeaves(kids[..idx])| + LeafIndex(kids[idx], key)
  }

  lemma {:induction false} LeafIndexBound(t: Tree, key: Value)
    requires Shaped(t)
    ensures LeafIndex(t, key) < |Leaves(t)|
    decreases t
  {
    if t.Inner? {
      var idx := ChildIndex(t.keys, key);
      LeafIndexBound(t.kids[idx], key);
      LeavesAt(t.kids, idx);
    }
  }

  lemma AdoptLeaves(id: int, keys: seq<Value>, kids: seq<Tree>, idx: nat, s: Split, nextId: int, order: nat)
    requires idx < |kids| == |keys| + 1
    ensures Grown(Adopt(id, keys, kids, idx, s, nextId, order)) == AllLeaves(kids[..idx + 1]) + Leaves(s.right) + AllLeaves(kids[idx + 1..])
  {
    hide AllLeaves;
    var keys' := keys[..idx] + [s.key] + keys[idx..];
    var kids' := kids[..idx + 1] + [s.right] + kids[idx + 1..];
    AllLeavesAppend(kids[..idx + 1] + [s.right], kids[idx + 1..]);
    AllLeavesAppend(kids[..idx + 1], [s.right]);
    AllLeavesOne(s.right);
    if |keys'| > order {
      var mid := |keys'| / 2;
      assert kids' == kids'[..mid + 1] + kids'[mid + 1..];
      AllLeavesAppend(kids'[..mid + 1], kids'[mid + 1..]);
    }
  }

  /** The leaves after an insertion: the key's leaf gives way to one or two. */
  lemma {:induction false} InsertLeaves(t: Tree, key: Value, rid: RecordID, order: nat, nextId: int)
    requires Shaped(t) && order >= 3
    ensures LeafIndex(t, key) < |Leaves(t)| && Leaves(t)[LeafIndex(t, key)].Leaf?
    ensures var ls, p := Leaves(t), LeafIndex(t, key);
      Grown(InsertTree(t, key, rid, order, nextId)) == ls[..p] + Grown(InsertLeaf(ls[p].id, ls[p].entries, key, rid, nextId, order)) + ls[p + 1..]
    decreases t
  {
    if t.Inner? {
      hide InsertTree, Leaves, AllLeaves, LeafIndex, Grown, InsertLeaf;
      InsertLeaves(t.kids[ChildIndex(t.keys, key)], key, rid, order, nextId);
      InsertLeavesStep(t, key, rid, order, nextId);
    } else {
      hide AllLeaves, InsertLeaf, InsertEntry;
    }
  }

  lemma InsertLeavesStep(t: Tree, key: Value, rid: RecordID, order: nat, nextId: int)
    requires Shaped(t) && order >= 3 && t.Inner?
    requires var u := t.kids[ChildIndex(t.keys, key)];
      LeafIndex(u, key) < |Leaves(u)| && Leaves(u)[LeafIndex(u, key)].Leaf?
    requires var u := t.kids[ChildIndex(t.keys, key)];
      var ls, p := Leaves(u), LeafIndex(u, key);
      Grown(InsertTree(u, key, rid, order, nextId)) == ls[..p] + Grown(InsertLeaf(ls[p].id, ls[p].entries, key, rid, nextId, order)) + ls[p + 1..]
    ensures LeafIndex(t, key) < |Leaves(t)| && Leaves(t)[LeafIndex(t, key)].Leaf?
    ensures var ls, p := Leaves(t), LeafIndex(t, key);
      Grown(InsertTree(t, key, rid, order, nextId)) == ls[..p] + Grown(InsertLeaf(ls[p].id, ls[p].entries, key, rid, nextId, order)) + ls[p + 1..]
  {
    hide AllLeaves, InsertLeaf, Adopt, InsertTree, Grown, Holds;
    var idx := ChildIndex(t.keys, key);
    var u := t.kids[idx];
    var a, c := AllLeaves(t.kids[..idx]), AllLeaves(t.kids[idx + 1..]);
    var ls, p := Leaves(u), LeafIndex(u, key);
    LeavesAt(t.kids, idx);
    assert Leaves(t) == a + ls + c;
    assert Leaves(t)[|a| + p] == ls[p];
    var g := Grown(InsertLeaf(ls[p].id, ls[p].entries, key, rid, nextId, order));
    GrownStep(t, key, rid, order, nextId);
    MiddleOfMiddle(a, ls, c, p, g);
  }

  lemma MiddleOfMiddle(a: seq<Tree>, b: seq<Tree>, c: seq<Tree>, p: nat, g: seq<Tree>)
    requires p < |b|
    ensures a + (b[..p] + g + b[p + 1..]) + c == (a + b + c)[..|a| + p] + g + (a + b + c)[|a| + p + 1..]
  {
    assert (a + b + c)[..|a| + p] == a + b[..p];
    assert (a + b + c)[|a| + p + 1..] == b[p + 1..] + c;
  }

  lemma GrownStep(t: Tree, key: Value, rid: RecordID, order: nat, nextId: int)
    requires Shaped(t) && order >= 3 && t.Inner?
    ensures var idx := ChildIndex(t.keys, key);
      Grown(InsertTree(t, key, rid, order, nextId)) == AllLeaves(t.kids[..idx]) + Grown(InsertTree(t.kids[idx], key, rid, order, nextId)) + AllLeaves(t.kids[idx + 1..])
  {
    hide AllLeaves, Adopt, InsertLeaf;
    var idx := ChildIndex(t.keys, key);
    var below := InsertTree(t.kids[idx], key, rid, order, nextId);
    hide ChildIndex, Shaped;
    if below.split.None? {
      LeavesReplaced(t.kids, idx, below.tree);
    } else {
      AdoptBelow(t, idx, below, order);
    }
  }

  lemma AdoptBelow(t: Tree, idx: nat, below: Inserted, order: nat)
    requires t.Inner? && idx < |t.kids| == |t.keys| + 1 && below.split.Some?
    ensures Grown(Adopt(t.id, t.keys, t.kids[idx := below.tree], idx, below.split.value, below.nextId, order))
      == AllLeaves(t.kids[..idx]) + Grown(below) + AllLeaves(t.kids[idx + 1..])
  {
    hide AllLeaves, Leaves, Adopt;
    var kids' := t.kids[idx := below.tree];
    AdoptLeaves(t.id, t.keys, kids', idx, below.split.value, below.nextId, order);
    assert kids'[..idx + 1] == t.kids[..idx] + [below.tree];
    AllLeavesAppend(t.kids[..idx], [below.tree]);
    AllLeavesOne(below.tree);
    assert kids'[idx + 1..] == t.kids[idx + 1..];
  }

  lemma NewRootLeaves(i: Inserted)
    ensures Leaves(NewRoot(i)) == Grown(i)
  {
    hide AllLeaves;
    if i.split.Some? {
      AllLeavesTwo(i.tree, i.split.value.right);
    }
  }

  // ----- The invariant

  predicate Above(v: Value, lo: Bound) {
    lo.Some? ==> !ValueLess(v, lo.value)
  }

  predicate StrictlyAbove(v: Value, lo: Bound) {
    lo.Some? ==> ValueLess(lo.value, v)
  }

  predicate Below(v: Value, hi: Bound) {
    hi.Some? ==> ValueLess(v, hi.value)
  }

  predicate BoundOk(k: Kind, b: Bound) {
    b.Some? ==> OfKind(k, b.value)
  }

  function KidLo(keys: seq<Value>, lo: Bound, i: nat): Bound
    requires i <= |keys|
  {
    if i == 0 then lo else Some(keys[i - 1])
  }

  function KidHi(keys: seq<Value>, hi: Bound, i: nat): Bound
    requires i <= |keys|
  {
    if i == |keys| then hi else Some(keys[i])
  }

  ghost predicate Increasing(keys: seq<Value>) {
    forall i, j :: 0 <= i < j < |keys| ==> ValueLess(keys[i], keys[j])
  }

  predicate KeyOk(k: Kind, v: Value, lo: Bound, hi: Bound) {
    OfKind(k, v) && StrictlyAbove(v, lo) && Below(v, hi)
  }

  /** Separators: of the index's kind, increasing, strictly between the bounds. */
  ghost predicate KeysOk(k: Kind, keys: seq<Value>, lo: Bound, hi: Bound) {
    Increasing(keys) && forall i :: 0 <= i < |keys| ==> KeyOk(k, keys[i], lo, hi)
  }

  ghost predicate Within(es: seq<Entry>, lo: Bound, hi: Bound) {
    forall i :: 0 <= i < |es| ==> Above(es[i].key, lo) && Below(es[i].key, hi)
  }

  /** All leaves at the same depth, every key between its separators, at most `order` keys in
      a node. */
  ghost predicate Ok(t: Tree, k: Kind, order: nat, lo: Bound, hi: Bound, depth: nat)
    decreases t
  {
    match t
    case Leaf(_, es) => depth == 0 && EntriesOk(k, es) && |es| <= order && Within(es, lo, hi)
    case Inner(_, keys, kids) =>
      && depth > 0 && |kids| == |keys| + 1 && |keys| <= order && KeysOk(k, keys, lo, hi)
      && forall i :: 0 <= i < |kids| ==> Ok(kids[i], k, order, KidLo(keys, lo, i), KidHi(keys, hi, i), depth - 1)
  }

  lemma {:induction false} OkShaped(t: Tree, k: Kind, order: nat, lo: Bound, hi: Bound, depth: nat)
    requires Ok(t, k, order, lo, hi, depth)
    ensures Shaped(t)
    decreases t
  {
    if t.Inner? {
      forall i | 0 <= i < |t.kids|
        ensures Shaped(t.kids[i])
      {
        OkShaped(t.kids[i], k, order, KidLo(t.keys, lo, i), KidHi(t.keys, hi, i), depth - 1);
      }
    }
  }
}
