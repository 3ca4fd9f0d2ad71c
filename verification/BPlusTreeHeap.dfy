/** The heap of the in-memory B+ tree: nodes by name, the tree they represent, and the doubly
    linked chain of its leaves. */
module BPlusTreeHeap {
  import opened Values
  import opened BPlusTreeModel
  import opened BPlusTreeInsert
  import opened BPlusTreeOrder

  const NIL := -1

  datatype Node = LeafNode(entries: seq<Entry>) | InnerNode(keys: seq<Value>, children: seq<int>)

  type Heap = map<int, Node>

  // ----- Which nodes a tree is made of

  ghost predicate Owns(t: Tree, x: int)
    decreases t
  {
    x == t.id || (t.Inner? && exists i :: 0 <= i < |t.kids| && Owns(t.kids[i], x))
  }

  ghost predicate Apart(t: Tree, u: Tree) {
    forall x :: Owns(t, x) ==> !Owns(u, x)
  }

  ghost predicate KidsApart(id: int, kids: seq<Tree>) {
    && (forall i :: 0 <= i < |kids| ==> !Owns(kids[i], id))
    && forall i, j :: 0 <= i < j < |kids| ==> Apart(kids[i], kids[j])
  }

  /** No node occurs twice. */
  ghost predicate Distinct(t: Tree)
    decreases t
  {
    t.Inner? ==> KidsApart(t.id, t.kids) && forall i :: 0 <= i < |t.kids| ==> Distinct(t.kids[i])
  }

  ghost predicate Bounded(t: Tree, n: int) {
    forall x :: Owns(t, x) ==> 0 <= x < n
  }

  function IdsOf(kids: seq<Tree>): (ids: seq<int>)
    ensures |ids| == |kids| && forall i :: 0 <= i < |ids| ==> ids[i] == kids[i].id
  {
    seq(|kids|, i requires 0 <= i < |kids| => kids[i].id)
  }

  /** The nodes hold exactly this tree. */
  ghost predicate Rep(nodes: Heap, t: Tree)
    decreases t
  {
    && t.id in nodes
    && match t
       case Leaf(id, es) => nodes[id] == LeafNode(es)
       case Inner(id, keys, kids) =>
         nodes[id] == InnerNode(keys, IdsOf(kids)) && forall i :: 0 <= i < |kids| ==> Rep(nodes, kids[i])
  }

  /** Every node of the tree is the same in both heaps. */
  ghost predicate SameOn(nodes: Heap, nodes': Heap, t: Tree) {
    forall x :: Owns(t, x) && x in nodes ==> x in nodes' && nodes'[x] == nodes[x]
  }

  lemma {:induction false} RepFrame(nodes: Heap, nodes': Heap, t: Tree)
    requires Rep(nodes, t) && SameOn(nodes, nodes', t)
    ensures Rep(nodes', t)
    decreases t
  {
    if t.Inner? {
      forall i | 0 <= i < |t.kids|
        ensures Rep(nodes', t.kids[i])
      {
        RepFrame(nodes, nodes', t.kids[i]);
      }
    }
  }

  lemma OwnsKid(t: Tree, i: nat, x: int)
    requires t.Inner? && i < |t.kids| && Owns(t.kids[i], x)
    ensures Owns(t, x)
  {
  }

  lemma KidBounded(t: Tree, i: nat, n: int)
    requires t.Inner? && i < |t.kids| && Bounded(t, n)
    ensures Bounded(t.kids[i], n)
  {
    forall x | Owns(t.kids[i], x)
      ensures 0 <= x < n
    {
      OwnsKid(t, i, x);
    }
  }

  // ----- Insertion uses the nodes of the tree and new ones

  /** Owned by a part of an insertion's result. */
  ghost predicate OwnedBy(i: Inserted, x: int) {
    Owns(i.tree, x) || (i.split.Some? && Owns(i.split.value.right, x))
  }

  ghost predicate InsertedApart(t: Tree, i: Inserted, nextId: int) {
    && i.tree.id == t.id && nextId <= i.nextId
    && Distinct(i.tree)
    && (i.split.Some? ==> Distinct(i.split.value.right) && Apart(i.tree, i.split.value.right) && nextId <= i.split.value.right.id)
    && forall x :: OwnedBy(i, x) ==> Owns(t, x) || nextId <= x < i.nextId
  }

  /** Two trees take a child's place among its siblings. */
  lemma KidsTakeIn(id: int, kids: seq<Tree>, idx: nat, i: Inserted, nextId: int)
    requires idx < |kids| && KidsApart(id, kids) && InsertedApart(kids[idx], i, nextId) && i.split.Some?
    requires id < nextId && forall j :: 0 <= j < |kids| ==> Bounded(kids[j], nextId)
    ensures var kids1 := kids[idx := i.tree];
      KidsApart(id, kids1[..idx + 1] + [i.split.value.right] + kids1[idx + 1..])
  {
    hide Owns, Distinct;
    var l, r := i.tree, i.split.value.right;
    forall x | OwnedBy(i, x)
      ensures x != id && forall j :: 0 <= j < |kids| && j != idx ==> !Owns(kids[j], x)
    {
      if Owns(kids[idx], x) {
        forall j | 0 <= j < |kids| && j != idx
          ensures !Owns(kids[j], x)
        {
          assert Apart(kids[if j < idx then j else idx], kids[if j < idx then idx else j]);
        }
      } else {
        assert forall j :: 0 <= j < |kids| ==> Bounded(kids[j], nextId);
      }
    }
    forall j | 0 <= j < |kids| && j != idx
      ensures Apart(l, kids[j]) && Apart(kids[j], l) && Apart(r, kids[j]) && Apart(kids[j], r)
    {
      assert forall x :: Owns(l, x) ==> OwnedBy(i, x);
      assert forall x :: Owns(r, x) ==> OwnedBy(i, x);
    }
    assert OwnedBy(i, id) == (Owns(l, id) || Owns(r, id));
    hide Apart;
    var kids1 := kids[idx := l];
    var kids' := kids1[..idx + 1] + [r] + kids1[idx + 1..];
    forall a, b | 0 <= a < b < |kids'|
      ensures Apart(kids'[a], kids'[b])
    {
      assert a != idx && a != idx + 1 ==> kids'[a] == kids[if a < idx then a else a - 1];
      assert b != idx && b != idx + 1 ==> kids'[b] == kids[if b < idx then b else b - 1];
    }
  }

  lemma KidsReplace(id: int, kids: seq<Tree>, idx: nat, i: Inserted, nextId: int)
    requires idx < |kids| && KidsApart(id, kids) && InsertedApart(kids[idx], i, nextId)
    requires id < nextId && forall j :: 0 <= j < |kids| ==> Bounded(kids[j], nextId)
    ensures KidsApart(id, kids[idx := i.tree])
  {
    hide Owns, Distinct;
    var l := i.tree;
    forall x | Owns(l, x)
      ensures x != id && forall j :: 0 <= j < |kids| && j != idx ==> !Owns(kids[j], x)
    {
      assert OwnedBy(i, x);
      if Owns(kids[idx], x) {
        forall j | 0 <= j < |kids| && j != idx
          ensures !Owns(kids[j], x)
        {
          assert Apart(kids[if j < idx then j else idx], kids[if j < idx then idx else j]);
        }
      } else {
        assert forall j :: 0 <= j < |kids| ==> Bounded(kids[j], nextId);
      }
    }
  }

  lemma InnerOwns(id: int, keys: seq<Value>, kids: seq<Tree>, x: int)
    ensures Owns(Inner(id, keys, kids), x) <==> x == id || exists i :: 0 <= i < |kids| && Owns(kids[i], x)
  {
  }

  lemma SliceOwns(kids: seq<Tree>, n: nat, x: int)
    requires n <= |kids|
    ensures (exists i :: 0 <= i < |kids[..n]| && Owns(kids[..n][i], x)) <==> exists i :: 0 <= i < n && Owns(kids[i], x)
    ensures (exists i :: 0 <= i < |kids[n..]| && Owns(kids[n..][i], x)) <==> exists i :: n <= i < |kids| && Owns(kids[i], x)
  {
    hide Owns;
    if i :| n <= i < |kids| && Owns(kids[i], x) {
      assert kids[n..][i - n] == kids[i];
    }
    if i :| 0 <= i < n && Owns(kids[i], x) {
      assert kids[..n][i] == kids[i];
    }
  }

  lemma HalfDistinct(id: int, ks: seq<Value>, kids: seq<Tree>, a: nat, b: nat)
    requires a <= b <= |kids| && forall i, j :: 0 <= i < j < |kids| ==> Apart(kids[i], kids[j])
    requires forall i :: 0 <= i < |kids| ==> Distinct(kids[i]) && !Owns(kids[i], id)
    ensures Distinct(Inner(id, ks, kids[a..b]))
  {
    hide Owns, Apart;
    var half := kids[a..b];
    assert forall i :: 0 <= i < |half| ==> half[i] == kids[a + i];
    assert KidsApart(id, half);
  }

  /** An overfull node's halves share nothing. */
  lemma HalvesApart(id: int, keys: seq<Value>, kids: seq<Tree>, nextId: int)
    requires |keys| >= 1 && |kids| == |keys| + 1 && KidsApart(id, kids) && id < nextId
    requires forall i :: 0 <= i < |kids| ==> Distinct(kids[i]) && Bounded(kids[i], nextId)
    ensures InsertedApart(Inner(id, keys, kids), SplitInner(id, keys, kids, nextId), nextId)
  {
    hide Owns;
    var s := SplitInner(id, keys, kids, nextId);
    var l, r := s.tree, s.split.value.right;
    var mid := |keys| / 2;
    assert l.kids == kids[0..mid + 1] && r.kids == kids[mid + 1..|kids|];
    HalfDistinct(id, l.keys, kids, 0, mid + 1);
    HalfDistinct(nextId, r.keys, kids, mid + 1, |kids|);
    forall x
      ensures Owns(l, x) <==> x == id || exists i :: 0 <= i < mid + 1 && Owns(kids[i], x)
      ensures Owns(r, x) <==> x == nextId || exists i :: mid + 1 <= i < |kids| && Owns(kids[i], x)
      ensures Owns(Inner(id, keys, kids), x) <==> x == id || exists i :: 0 <= i < |kids| && Owns(kids[i], x)
    {
      InnerOwns(l.id, l.keys, l.kids, x);
      InnerOwns(r.id, r.keys, r.kids, x);
      InnerOwns(id, keys, kids, x);
      SliceOwns(kids, mid + 1, x);
    }
    hide Distinct;
    forall x | Owns(l, x)
      ensures !Owns(r, x)
    {
      if x != id {
        var i :| 0 <= i < mid + 1 && Owns(kids[i], x);
        assert forall j :: mid + 1 <= j < |kids| ==> Apart(kids[i], kids[j]);
      }
    }
  }

  lemma TakenInOwns(kids: seq<Tree>, idx: nat, i: Inserted, nextId: int, x: int)
    requires idx < |kids| && InsertedApart(kids[idx], i, nextId) && i.split.Some?
    ensures var kids1 := kids[idx := i.tree];
      var kids' := kids1[..idx + 1] + [i.split.value.right] + kids1[idx + 1..];
      (exists j :: 0 <= j < |kids'| && Owns(kids'[j], x)) ==> (exists j :: 0 <= j < |kids| && Owns(kids[j], x)) || nextId <= x < i.nextId
  {
    hide Owns, Distinct, Apart;
    var kids1 := kids[idx := i.tree];
    var kids' := kids1[..idx + 1] + [i.split.value.right] + kids1[idx + 1..];
    if j :| 0 <= j < |kids'| && Owns(kids'[j], x) {
      if j == idx || j == idx + 1 {
        assert OwnedBy(i, x);
      } else {
        assert kids'[j] == kids[if j < idx then j else j - 1];
      }
    }
  }

  /** Taking a split child in uses no node twice. */
  lemma AdoptApart(t: Tree, idx: nat, below: Inserted, nextId: int, order: nat)
    requires t.Inner? && idx < |t.kids| == |t.keys| + 1 && Distinct(t) && Bounded(t, nextId)
    requires InsertedApart(t.kids[idx], below, nextId) && below.split.Some?
    ensures InsertedApart(t, Adopt(t.id, t.keys, t.kids[idx := below.tree], idx, below.split.value, below.nextId, order), nextId)
  {
    var s := below.split.value;
    var kids1 := t.kids[idx := below.tree];
    var keys' := t.keys[..idx] + [s.key] + t.keys[idx..];
    var kids' := kids1[..idx + 1] + [s.right] + kids1[idx + 1..];
    AdoptedApart(t, idx, below, nextId);
    hide Owns, Distinct;
    var u := Inner(t.id, keys', kids');
    if |keys'| > order {
      forall i | 0 <= i < |kids'|
        ensures Bounded(kids'[i], below.nextId)
      {
        KidBounded(u, i, below.nextId);
      }
      HalvesApart(t.id, keys', kids', below.nextId);
    }
  }

  lemma AdoptedApart(t: Tree, idx: nat, below: Inserted, nextId: int)
    requires t.Inner? && idx < |t.kids| == |t.keys| + 1 && Distinct(t) && Bounded(t, nextId)
    requires InsertedApart(t.kids[idx], below, nextId) && below.split.Some?
    ensures var s, kids1 := below.split.value, t.kids[idx := below.tree];
      var kids' := kids1[..idx + 1] + [s.right] + kids1[idx + 1..];
      var u := Inner(t.id, t.keys[..idx] + [s.key] + t.keys[idx..], kids');
      && InsertedApart(t, Inserted(u, None, below.nextId), nextId) && Bounded(u, below.nextId)
      && KidsApart(t.id, kids') && t.id < nextId && forall i :: 0 <= i < |kids'| ==> Distinct(kids'[i])
  {
    hide Owns;
    var s, kids1 := below.split.value, t.kids[idx := below.tree];
    var kids' := kids1[..idx + 1] + [s.right] + kids1[idx + 1..];
    var u := Inner(t.id, t.keys[..idx] + [s.key] + t.keys[idx..], kids');
    forall j | 0 <= j < |t.kids|
      ensures Bounded(t.kids[j], nextId)
    {
      KidBounded(t, j, nextId);
    }
    OwnsRoot(t);
    KidsTakeIn(t.id, t.kids, idx, below, nextId);
    forall x | Owns(u, x)
      ensures Owns(t, x) || nextId <= x < below.nextId
    {
      InnerOwns(u.id, u.keys, u.kids, x);
      InnerOwns(t.id, t.keys, t.kids, x);
      TakenInOwns(t.kids, idx, below, nextId, x);
    }
  }

  lemma OwnsRoot(t: Tree)
    ensures Owns(t, t.id)
  {
  }

  lemma ReplacedApart(t: Tree, idx: nat, below: Inserted, nextId: int)
    requires t.Inner? && idx < |t.kids| && Distinct(t) && Bounded(t, nextId)
    requires InsertedApart(t.kids[idx], below, nextId) && below.split.None?
    ensures InsertedApart(t, Inserted(Inner(t.id, t.keys, t.kids[idx := below.tree]), None, below.nextId), nextId)
  {
    hide Owns;
    var u := Inner(t.id, t.keys, t.kids[idx := below.tree]);
    forall j | 0 <= j < |t.kids|
      ensures Bounded(t.kids[j], nextId)
    {
      KidBounded(t, j, nextId);
    }
    OwnsRoot(t);
    KidsReplace(t.id, t.kids, idx, below, nextId);
    forall x | Owns(u, x)
      ensures Owns(t, x) || nextId <= x < below.nextId
    {
      InnerOwns(u.id, u.keys, u.kids, x);
      InnerOwns(t.id, t.keys, t.kids, x);
      if x != t.id {
        var j :| 0 <= j < |u.kids| && Owns(u.kids[j], x);
        if j == idx {
          assert OwnedBy(below, x);
          assert Owns(t.kids[idx], x) || nextId <= x < below.nextId;
        } else {
          assert u.kids[j] == t.kids[j];
        }
      }
    }
  }

  /** Insertion reuses the tree's nodes, takes new ones from `nextId` on, and uses none twice. */
  lemma {:induction false} InsertApart(t: Tree, key: Value, rid: RecordID, order: nat, nextId: int)
    requires Shaped(t) && order >= 3 && Distinct(t) && Bounded(t, nextId)
    ensures InsertedApart(t, InsertTree(t, key, rid, order, nextId), nextId)
    decreases t
  {
    match t
    case Leaf(id, es) =>
      hide InsertEntry, Holds;
      OwnsRoot(t);
    case Inner(id, keys, kids) =>
      hide Adopt, InsertedApart, Owns, Bounded;
      var idx := ChildIndex(keys, key);
      KidBounded(t, idx, nextId);
      InsertApart(kids[idx], key, rid, order, nextId);
      var below := InsertTree(kids[idx], key, rid, order, nextId);
      if below.split.None? {
        ReplacedApart(t, idx, below, nextId);
      } else {
        AdoptApart(t, idx, below, nextId, order);
      }
  }

  // ----- The chain of leaves

  /** The links join exactly these nodes, in this order, both ways. */
  ghost predicate Linked(next: map<int, int>, prev: map<int, int>, ids: seq<int>) {
    && (forall i :: 0 <= i < |ids| ==> LinkOk(next, prev, ids, i))
    && forall i, j :: 0 <= i < j < |ids| ==> ids[i] != ids[j]
  }

  predicate LinkOk(next: map<int, int>, prev: map<int, int>, ids: seq<int>, i: nat)
    requires i < |ids|
  {
    && ids[i] >= 0 && ids[i] in next && ids[i] in prev
    && next[ids[i]] == (if i + 1 < |ids| then ids[i + 1] else NIL)
    && prev[ids[i]] == (if i > 0 then ids[i - 1] else NIL)
  }

  /** The links with a new node put in after another. */
  function NextWith(next: map<int, int>, node: int, right: int): map<int, int>
    requires node in next
  {
    next[right := next[node]][node := right]
  }

  function PrevWith(next: map<int, int>, prev: map<int, int>, node: int, right: int): map<int, int>
    requires node in next
  {
    var p := prev[right := node];
    if next[node] != NIL then p[next[node] := right] else p
  }

  lemma LinkAt(next: map<int, int>, prev: map<int, int>, before: seq<int>, node: int, after: seq<int>)
    requires Linked(next, prev, before + [node] + after)
    ensures node in next && node in prev && node >= 0
    ensures next[node] == if after != [] then after[0] else NIL
    ensures prev[node] == if before != [] then before[|before| - 1] else NIL
  {
    var ids := before + [node] + after;
    assert ids[|before|] == node && LinkOk(next, prev, ids, |before|);
  }

  /** The node at an index differs from those at the others. */
  lemma Different(next: map<int, int>, prev: map<int, int>, ids: seq<int>, i: nat)
    requires Linked(next, prev, ids) && i < |ids|
    ensures forall j :: 0 <= j < |ids| && j != i ==> ids[j] != ids[i]
  {
  }

  lemma LinkedWith(next: map<int, int>, prev: map<int, int>, before: seq<int>, node: int, after: seq<int>, right: int)
    requires Linked(next, prev, before + [node] + after) && right >= 0
    requires right !in before + [node] + after
    ensures node in next
    ensures Linked(NextWith(next, node, right), PrevWith(next, prev, node, right), before + [node, right] + after)
  {
    var p, ids := |before|, before + [node] + after;
    var ids' := before + [node, right] + after;
    LinkAt(next, prev, before, node, after);
    assert forall i :: 0 <= i < |ids| ==> ids[i] in ids;
    forall i | 0 <= i < |ids'|
      ensures ids'[i] == if i <= p then ids[i] else if i == p + 1 then right else ids[i - 1]
    {
    }
    forall i | 0 <= i < |ids'|
      ensures LinkOk(NextWith(next, node, right), PrevWith(next, prev, node, right), ids', i)
    {
      if i <= p {
        LinkedWithBefore(next, prev, before, node, after, right, i);
      } else if i > p + 1 {
        LinkedWithAfter(next, prev, before, node, after, right, i - 1);
      } else {
        assert ids[p] == node;
        assert after != [] ==> ids[p + 1] == after[0] && ids'[p + 2] == after[0];
        assert ids'[p] == node;
      }
    }
    DifferentWith(next, prev, before, node, after, right);
  }

  lemma DifferentWith(next: map<int, int>, prev: map<int, int>, before: seq<int>, node: int, after: seq<int>, right: int)
    requires Linked(next, prev, before + [node] + after) && right !in before + [node] + after
    ensures var ids' := before + [node, right] + after;
      forall i, j :: 0 <= i < j < |ids'| ==> ids'[i] != ids'[j]
  {
    var p, ids := |before|, before + [node] + after;
    var ids' := before + [node, right] + after;
    forall i, j | 0 <= i < j < |ids'|
      ensures ids'[i] != ids'[j]
    {
      var i0, j0 := if i <= p then i else i - 1, if j <= p then j else j - 1;
      assert i != p + 1 ==> ids'[i] == ids[i0] && ids[i0] in ids;
      assert j != p + 1 ==> ids'[j] == ids[j0] && ids[j0] in ids;
      assert ids'[p + 1] == right;
    }
  }

  lemma LinkedWithBefore(next: map<int, int>, prev: map<int, int>, before: seq<int>, node: int, after: seq<int>, right: int, i: nat)
    requires Linked(next, prev, before + [node] + after) && right >= 0
    requires right !in before + [node] + after
    requires i <= |before| && node in next
    ensures LinkOk(NextWith(next, node, right), PrevWith(next, prev, node, right), before + [node, right] + after, i)
  {
    var p, ids := |before|, before + [node] + after;
    LinkAt(next, prev, before, node, after);
    Different(next, prev, ids, i);
    assert ids[p] == node && ids[i] in ids && LinkOk(next, prev, ids, i);
    if after != [] {
      assert ids[p + 1] == after[0];
    }
  }

  lemma LinkedWithAfter(next: map<int, int>, prev: map<int, int>, before: seq<int>, node: int, after: seq<int>, right: int, i: nat)
    requires Linked(next, prev, before + [node] + after) && right >= 0
    requires right !in before + [node] + after
    requires |before| < i < |before + [node] + after| && node in next
    ensures LinkOk(NextWith(next, node, right), PrevWith(next, prev, node, right), before + [node, right] + after, i + 1)
  {
    var p, ids := |before|, before + [node] + after;
    var ids' := before + [node, right] + after;
    LinkAt(next, prev, before, node, after);
    Different(next, prev, ids, i);
    assert ids[p] == node && ids[p + 1] == after[0] && ids[i] in ids && LinkOk(next, prev, ids, i);
    assert ids'[i + 1] == ids[i] == after[i - p - 1];
    assert i + 1 < |ids| ==> ids'[i + 2] == ids[i + 1];
    assert ids'[i] == if i == p + 1 then right else ids[i - 1];
  }

  /** The links with a node taken out. */
  function NextWithout(next: map<int, int>, prev: map<int, int>, node: int): map<int, int>
    requires node in next && node in prev
  {
    if prev[node] != NIL then next[prev[node] := next[node]] else next
  }

  function PrevWithout(next: map<int, int>, prev: map<int, int>, node: int): map<int, int>
    requires node in next && node in prev
  {
    if next[node] != NIL then prev[next[node] := prev[node]] else prev
  }

  lemma LinkedWithout(next: map<int, int>, prev: map<int, int>, before: seq<int>, node: int, after: seq<int>)
    requires Linked(next, prev, before + [node] + after)
    ensures node in next && node in prev
    ensures Linked(NextWithout(next, prev, node), PrevWithout(next, prev, node), before + after)
  {
    var p, ids := |before|, before + [node] + after;
    var ids' := before + after;
    LinkAt(next, prev, before, node, after);
    forall i | 0 <= i < |ids'|
      ensures ids'[i] == ids[if i < p then i else i + 1]
    {
    }
    if after != [] {
      assert ids[p + 1] == after[0];
      Different(next, prev, ids, p + 1);
    }
    if p > 0 {
      assert ids[p - 1] == before[p - 1];
      Different(next, prev, ids, p - 1);
    }
    forall i | 0 <= i < |ids'|
      ensures LinkOk(NextWithout(next, prev, node), PrevWithout(next, prev, node), ids', i)
    {
      assert LinkOk(next, prev, ids, if i < p then i else i + 1);
    }
  }

  lemma IdsAppend(a: seq<Tree>, b: seq<Tree>)
    ensures IdsOf(a + b) == IdsOf(a) + IdsOf(b)
  {
  }

  // ----- Leaves in the heap

  lemma {:induction false} LeavesRep(nodes: Heap, t: Tree)
    requires Rep(nodes, t)
    ensures forall i :: 0 <= i < |Leaves(t)| ==> Rep(nodes, Leaves(t)[i]) && Leaves(t)[i].Leaf? && Owns(t, Leaves(t)[i].id)
    decreases t, 1
  {
    if t.Inner? {
      AllLeavesRep(nodes, t, 0);
      assert t.kids[0..] == t.kids;
    }
  }

  lemma {:induction false} AllLeavesRep(nodes: Heap, t: Tree, a: nat)
    requires Rep(nodes, t) && t.Inner? && a <= |t.kids|
    ensures forall i :: 0 <= i < |AllLeaves(t.kids[a..])| ==>
                          var l := AllLeaves(t.kids[a..])[i]; Rep(nodes, l) && l.Leaf? && Owns(t, l.id)
    decreases t, 0, |t.kids| - a
  {
    if a < |t.kids| {
      LeavesRep(nodes, t.kids[a]);
      AllLeavesRep(nodes, t, a + 1);
      assert t.kids[a..][0] == t.kids[a] && t.kids[a..][1..] == t.kids[a + 1..];
    }
  }

  lemma {:induction false} SomeLeaf(t: Tree)
    requires Shaped(t)
    ensures |Leaves(t)| > 0
    decreases t
  {
    if t.Inner? {
      SomeLeaf(t.kids[0]);
    }
  }

  // ----- Writing nodes

  ghost predicate KidsRep(nodes: Heap, kids: seq<Tree>) {
    forall i :: 0 <= i < |kids| ==> Rep(nodes, kids[i])
  }

  /** The heap is unchanged outside two names. */
  ghost predicate OnlyChanged(nodes: Heap, nodes': Heap, a: int, b: int) {
    forall x :: x in nodes && x != a && x != b ==> x in nodes' && nodes'[x] == nodes[x]
  }

  /** An inner node over children that the change did not touch. */
  lemma InnerRep(nodes: Heap, nodes': Heap, a: int, b: int, id: int, keys: seq<Value>, kids: seq<Tree>)
    requires KidsRep(nodes, kids) && OnlyChanged(nodes, nodes', a, b)
    requires forall i :: 0 <= i < |kids| ==> !Owns(kids[i], a) && !Owns(kids[i], b)
    requires id in nodes' && nodes'[id] == InnerNode(keys, IdsOf(kids))
    ensures Rep(nodes', Inner(id, keys, kids))
  {
    hide Owns;
    forall i | 0 <= i < |kids|
      ensures Rep(nodes', kids[i])
    {
      RepFrame(nodes, nodes', kids[i]);
    }
  }

  /** The heap is unchanged outside a tree and above a name. */
  ghost predicate Kept(nodes: Heap, nodes': Heap, t: Tree, nextId: int) {
    forall x :: x in nodes && x < nextId && !Owns(t, x) ==> x in nodes' && nodes'[x] == nodes[x]
  }

  /** After a child's subtree has changed, its siblings and its parent are as before. */
  lemma SiblingsRep(nodes: Heap, nodes': Heap, t: Tree, idx: nat, u: Tree, nextId: int)
    requires Rep(nodes, t) && Distinct(t) && Bounded(t, nextId) && t.Inner? && idx < |t.kids|
    requires Kept(nodes, nodes', t.kids[idx], nextId) && Rep(nodes', u)
    ensures KidsRep(nodes', t.kids[idx := u])
    ensures t.id in nodes' && nodes'[t.id] == nodes[t.id]
  {
    hide Owns;
    OwnsRoot(t);
    forall i | 0 <= i < |t.kids| && i != idx
      ensures Rep(nodes', t.kids[i])
    {
      KidBounded(t, i, nextId);
      assert Apart(t.kids[if i < idx then i else idx], t.kids[if i < idx then idx else i]);
      RepFrame(nodes, nodes', t.kids[i]);
    }
  }

  lemma KidKept(nodes: Heap, nodes': Heap, t: Tree, idx: nat, nextId: int)
    requires t.Inner? && idx < |t.kids| && Kept(nodes, nodes', t.kids[idx], nextId)
    ensures Kept(nodes, nodes', t, nextId)
  {
    forall x | Owns(t.kids[idx], x)
      ensures Owns(t, x)
    {
      OwnsKid(t, idx, x);
    }
  }

  lemma KeptMore(nodes: Heap, nodes1: Heap, nodes': Heap, t: Tree, a: int, b: int, nextId: int)
    requires Kept(nodes, nodes1, t, nextId) && OnlyChanged(nodes1, nodes', a, b)
    requires (Owns(t, a) || a >= nextId) && (Owns(t, b) || b >= nextId)
    ensures Kept(nodes, nodes', t, nextId)
  {
    hide Owns;
  }

  /** What an insertion below a node has done: the heap holds its result, the chain its leaves. */
  ghost predicate Done(nodes: Heap, next: map<int, int>, prev: map<int, int>, i: Inserted, s: Option<(Value, int)>, before: seq<int>, after: seq<int>) {
    && Rep(nodes, i.tree) && Linked(next, prev, before + IdsOf(Grown(i)) + after)
    && (s.Some? <==> i.split.Some?)
    && (s.Some? ==> s.value == (i.split.value.key, i.split.value.right.id) && Rep(nodes, i.split.value.right))
  }

  /** A tree in the heap, between neighbours in the chain of leaves. */
  ghost predicate Placed(nodes: Heap, next: map<int, int>, prev: map<int, int>, nextId: int, t: Tree, before: seq<int>, after: seq<int>) {
    && Rep(nodes, t) && Distinct(t) && Bounded(t, nextId) && Shaped(t)
    && Linked(next, prev, before + IdsOf(Leaves(t)) + after)
    && (forall i :: 0 <= i < |before| ==> before[i] < nextId) && forall i :: 0 <= i < |after| ==> after[i] < nextId
  }

  /** A child is placed between its siblings' leaves. */
  lemma KidPlaced(nodes: Heap, next: map<int, int>, prev: map<int, int>, nextId: int, t: Tree, before: seq<int>, after: seq<int>, idx: nat)
    requires Placed(nodes, next, prev, nextId, t, before, after) && t.Inner? && idx < |t.kids|
    ensures Placed(nodes, next, prev, nextId, t.kids[idx],
                   before + IdsOf(AllLeaves(t.kids[..idx])), IdsOf(AllLeaves(t.kids[idx + 1..])) + after)
  {
    hide Owns, AllLeaves, Linked;
    var a, u, c := AllLeaves(t.kids[..idx]), Leaves(t.kids[idx]), AllLeaves(t.kids[idx + 1..]);
    LeavesAt(t.kids, idx);
    assert Leaves(t) == a + u + c;
    IdsThree(a, u, c);
    Regroup(before, IdsOf(a), IdsOf(u), IdsOf(c), after);
    KidBounded(t, idx, nextId);
    LeavesRep(nodes, t);
    LeavesOwned(t, a, u, c, nextId);
  }

  lemma LeavesOwned(t: Tree, a: seq<Tree>, u: seq<Tree>, c: seq<Tree>, nextId: int)
    requires Leaves(t) == a + u + c && Bounded(t, nextId)
    requires forall i :: 0 <= i < |Leaves(t)| ==> Owns(t, Leaves(t)[i].id)
    ensures forall i :: 0 <= i < |a| ==> IdsOf(a)[i] < nextId
    ensures forall i :: 0 <= i < |c| ==> IdsOf(c)[i] < nextId
  {
    hide Owns, Leaves;
    forall i | 0 <= i < |a|
      ensures a[i].id < nextId
    {
      assert Leaves(t)[i] == a[i];
    }
    forall i | 0 <= i < |c|
      ensures c[i].id < nextId
    {
      assert Leaves(t)[|a| + |u| + i] == c[i];
    }
  }

  lemma IdsThree(a: seq<Tree>, b: seq<Tree>, c: seq<Tree>)
    ensures IdsOf(a + b + c) == IdsOf(a) + IdsOf(b) + IdsOf(c)
  {
    IdsAppend(a + b, c);
    IdsAppend(a, b);
  }

  lemma Regroup(before: seq<int>, a: seq<int>, u: seq<int>, c: seq<int>, after: seq<int>)
    ensures before + (a + u + c) + after == (before + a) + u + (c + after)
  {
  }

  /** An insertion below, seen from the parent, when the child has not split. */
  lemma DoneReplaced(nodes: Heap, nodes': Heap, next: map<int, int>, prev: map<int, int>, t: Tree, key: Value, rid: RecordID, order: nat, nextId: int,
                     before: seq<int>, after: seq<int>)
    requires Rep(nodes, t) && Distinct(t) && Bounded(t, nextId) && Shaped(t) && t.Inner? && order >= 3
    requires var idx := ChildIndex(t.keys, key);
      && Kept(nodes, nodes', t.kids[idx], nextId) && InsertTree(t.kids[idx], key, rid, order, nextId).split.None?
      && Done(nodes', next, prev, InsertTree(t.kids[idx], key, rid, order, nextId), None,
              before + IdsOf(AllLeaves(t.kids[..idx])), IdsOf(AllLeaves(t.kids[idx + 1..])) + after)
    ensures Done(nodes', next, prev, InsertTree(t, key, rid, order, nextId), None, before, after)
    ensures Kept(nodes, nodes', t, nextId)
  {
    hide Owns, AllLeaves, Linked, InsertTree, Grown, ChildIndex;
    var idx := ChildIndex(t.keys, key);
    var below := InsertTree(t.kids[idx], key, rid, order, nextId);
    KidBounded(t, idx, nextId);
    InsertApart(t.kids[idx], key, rid, order, nextId);
    SiblingsRep(nodes, nodes', t, idx, below.tree, nextId);
    KidKept(nodes, nodes', t, idx, nextId);
    GrownStep(t, key, rid, order, nextId);
    IdsThree(AllLeaves(t.kids[..idx]), Grown(below), AllLeaves(t.kids[idx + 1..]));
    Regroup(before, IdsOf(AllLeaves(t.kids[..idx])), IdsOf(Grown(below)), IdsOf(AllLeaves(t.kids[idx + 1..])), after);
    ReplacedIs(t, key, rid, order, nextId);
    assert IdsOf(t.kids[idx := below.tree]) == IdsOf(t.kids);
  }

  lemma ReplacedIs(t: Tree, key: Value, rid: RecordID, order: nat, nextId: int)
    requires Shaped(t) && t.Inner? && order >= 3
    ensures var idx := ChildIndex(t.keys, key);
      var below := InsertTree(t.kids[idx], key, rid, order, nextId);
      InsertTree(t, key, rid, order, nextId)
        == if below.split.None? then Inserted(Inner(t.id, t.keys, t.kids[idx := below.tree]), None, below.nextId)
           else Adopt(t.id, t.keys, t.kids[idx := below.tree], idx, below.split.value, below.nextId, order)
  {
  }

  /** An insertion below, seen from the parent, when the child has split: the parent's node now
      lists the new child, and is split itself when it is overfull. */
  lemma DoneAdopted(nodes: Heap, nodes1: Heap, nodes2: Heap, t: Tree, idx: nat, below: Inserted, nextId: int)
    requires Rep(nodes, t) && Distinct(t) && Bounded(t, nextId) && t.Inner? && idx < |t.kids| == |t.keys| + 1
    requires InsertedApart(t.kids[idx], below, nextId) && below.split.Some?
    requires Kept(nodes, nodes1, t.kids[idx], nextId) && Rep(nodes1, below.tree) && Rep(nodes1, below.split.value.right)
    requires var s, kids1 := below.split.value, t.kids[idx := below.tree];
      nodes2 == nodes1[t.id := InnerNode(t.keys[..idx] + [s.key] + t.keys[idx..], IdsOf(kids1[..idx + 1] + [s.right] + kids1[idx + 1..]))]
    ensures var s, kids1 := below.split.value, t.kids[idx := below.tree];
      Rep(nodes2, Inner(t.id, t.keys[..idx] + [s.key] + t.keys[idx..], kids1[..idx + 1] + [s.right] + kids1[idx + 1..]))
    ensures Kept(nodes, nodes2, t, nextId)
  {
    hide Owns, Distinct;
    var s, kids1 := below.split.value, t.kids[idx := below.tree];
    var kids' := kids1[..idx + 1] + [s.right] + kids1[idx + 1..];
    AdoptedApart(t, idx, below, nextId);
    SiblingsRep(nodes, nodes1, t, idx, below.tree, nextId);
    assert KidsRep(nodes1, kids');
    InnerRep(nodes1, nodes2, t.id, t.id, t.id, t.keys[..idx] + [s.key] + t.keys[idx..], kids');
    KidKept(nodes, nodes1, t, idx, nextId);
    OwnsRoot(t);
    KeptMore(nodes, nodes1, nodes2, t, t.id, t.id, nextId);
  }

  /** Splitting an inner node in the heap is splitting it. */
  lemma SplitInnerRep(nodes: Heap, nodes': Heap, id: int, keys: seq<Value>, kids: seq<Tree>, nextId: int)
    requires |keys| >= 1 && |kids| == |keys| + 1 && Rep(nodes, Inner(id, keys, kids)) && KidsApart(id, kids) && id < nextId
    requires forall i :: 0 <= i < |kids| ==> Bounded(kids[i], nextId)
    requires var s := SplitInner(id, keys, kids, nextId);
      var l, r := s.tree, s.split.value.right;
      nodes' == nodes[id := InnerNode(l.keys, IdsOf(l.kids))][nextId := InnerNode(r.keys, IdsOf(r.kids))]
    ensures var s := SplitInner(id, keys, kids, nextId);
      Rep(nodes', s.tree) && Rep(nodes', s.split.value.right)
  {
    hide Owns;
    var s := SplitInner(id, keys, kids, nextId);
    var l, r := s.tree, s.split.value.right;
    InnerRep(nodes, nodes', id, nextId, id, l.keys, l.kids);
    InnerRep(nodes, nodes', id, nextId, nextId, r.keys, r.kids);
  }

  /** An insertion into a leaf that still fits. */
  lemma LeafFits(nodes: Heap, next: map<int, int>, prev: map<int, int>, t: Tree, key: Value, rid: RecordID, order: nat, nextId: int,
                 before: seq<int>, after: seq<int>)
    requires t.Leaf? && order >= 3 && (Holds(t.entries, key) || |InsertEntry(t.entries, key, rid)| <= order)
    requires t.id in nodes && nodes[t.id] == LeafNode(InsertEntry(t.entries, key, rid))
    requires Linked(next, prev, before + [t.id] + after)
    ensures InsertTree(t, key, rid, order, nextId).nextId == nextId
    ensures Done(nodes, next, prev, InsertTree(t, key, rid, order, nextId), None, before, after)
  {
    hide Linked, InsertEntry, Holds;
    var i := InsertTree(t, key, rid, order, nextId);
    assert IdsOf(Grown(i)) == [t.id];
  }

  /** An insertion into a leaf that must split. */
  lemma LeafSplits(nodes: Heap, next: map<int, int>, prev: map<int, int>, t: Tree, key: Value, rid: RecordID, order: nat, nextId: int,
                   up: Value, before: seq<int>, after: seq<int>)
    requires t.Leaf? && order >= 3 && !Holds(t.entries, key) && |InsertEntry(t.entries, key, rid)| > order && t.id < nextId
    requires var es := InsertEntry(t.entries, key, rid);
      var mid := |es| / 2;
      && t.id in nodes && nodes[t.id] == LeafNode(es[..mid]) && nextId in nodes && nodes[nextId] == LeafNode(es[mid..])
      && up == es[mid].key
    requires Linked(next, prev, before + [t.id, nextId] + after)
    ensures InsertTree(t, key, rid, order, nextId).nextId == nextId + 1
    ensures Done(nodes, next, prev, InsertTree(t, key, rid, order, nextId), Some((up, nextId)), before, after)
  {
    hide Linked, InsertEntry, Holds;
    var i := InsertTree(t, key, rid, order, nextId);
    assert IdsOf(Grown(i)) == [t.id, nextId];
  }

  lemma KidsBounded(t: Tree, n: int)
    requires t.Inner? && Bounded(t, n)
    ensures forall i :: 0 <= i < |t.kids| ==> Bounded(t.kids[i], n)
  {
    hide Owns;
    forall i | 0 <= i < |t.kids|
      ensures Bounded(t.kids[i], n)
    {
      KidBounded(t, i, n);
    }
  }

  lemma SiblingsAt(nodes: Heap, nodes': Heap, t: Tree, idx: nat, u: Tree, nextId: int)
    requires Rep(nodes, t) && Distinct(t) && Bounded(t, nextId) && t.Inner? && idx < |t.kids|
    requires Kept(nodes, nodes', t.kids[idx], nextId) && Rep(nodes', u) && u.id == t.kids[idx].id
    ensures t.id in nodes' && nodes'[t.id] == InnerNode(t.keys, IdsOf(t.kids[idx := u]))
  {
    hide Owns;
    SiblingsRep(nodes, nodes', t, idx, u, nextId);
    assert IdsOf(t.kids[idx := u]) == IdsOf(t.kids);
  }

  /** The chain after an insertion below is the chain after the insertion. */
  lemma ChainUp(next: map<int, int>, prev: map<int, int>, t: Tree, key: Value, rid: RecordID, order: nat, nextId: int, before: seq<int>, after: seq<int>)
    requires Shaped(t) && t.Inner? && order >= 3
    requires var idx := ChildIndex(t.keys, key);
      Linked(next, prev, before + IdsOf(AllLeaves(t.kids[..idx])) + IdsOf(Grown(InsertTree(t.kids[idx], key, rid, order, nextId)))
                         + (IdsOf(AllLeaves(t.kids[idx + 1..])) + after))
    ensures Linked(next, prev, before + IdsOf(Grown(InsertTree(t, key, rid, order, nextId))) + after)
  {
    hide AllLeaves, Linked, InsertTree, Grown, ChildIndex;
    var idx := ChildIndex(t.keys, key);
    var below := InsertTree(t.kids[idx], key, rid, order, nextId);
    GrownStep(t, key, rid, order, nextId);
    IdsThree(AllLeaves(t.kids[..idx]), Grown(below), AllLeaves(t.kids[idx + 1..]));
    Regroup(before, IdsOf(AllLeaves(t.kids[..idx])), IdsOf(Grown(below)), IdsOf(AllLeaves(t.kids[idx + 1..])), after);
  }

  /** The leaf a key belongs to. */
  function KeyLeaf(t: Tree, key: Value): (l: Tree)
    requires Shaped(t)
    ensures l.Leaf?
    decreases t
  {
    if t.Leaf? then t else KeyLeaf(t.kids[ChildIndex(t.keys, key)], key)
  }

  lemma {:induction false} KeyLeafAt(t: Tree, key: Value)
    requires Shaped(t)
    ensures LeafIndex(t, key) < |Leaves(t)| && Leaves(t)[LeafIndex(t, key)] == KeyLeaf(t, key)
    decreases t
  {
    LeafIndexBound(t, key);
    if t.Inner? {
      var idx := ChildIndex(t.keys, key);
      KeyLeafAt(t.kids[idx], key);
      hide AllLeaves;
      LeavesAt(t.kids, idx);
    }
  }

  lemma DoneSplit(nodes: Heap, next: map<int, int>, prev: map<int, int>, i: Inserted, s: Option<(Value, int)>, before: seq<int>, after: seq<int>)
    requires Done(nodes, next, prev, i, s, before, after)
    ensures Rep(nodes, i.tree) && Linked(next, prev, before + IdsOf(Grown(i)) + after)
    ensures s.Some? <==> i.split.Some?
    ensures s.Some? ==> s.value == (i.split.value.key, i.split.value.right.id) && Rep(nodes, i.split.value.right)
  {
  }

  lemma DoneIs(nodes: Heap, next: map<int, int>, prev: map<int, int>, i: Inserted, s: Option<(Value, int)>, before: seq<int>, after: seq<int>)
    requires Rep(nodes, i.tree) && Linked(next, prev, before + IdsOf(Grown(i)) + after)
    requires s.Some? <==> i.split.Some?
    requires s.Some? ==> s.value == (i.split.value.key, i.split.value.right.id) && Rep(nodes, i.split.value.right)
    ensures Done(nodes, next, prev, i, s, before, after)
  {
  }

  /** An insertion adds a key exactly when its leaf does not hold it. */
  lemma CountInserted(t: Tree, k: Kind, order: nat, depth: nat, key: Value, rid: RecordID)
    requires RootOk(t, k, order, depth) && Shaped(t) && OfKind(k, key)
    ensures |InsertEntry(Entries(t), key, rid)| == |Entries(t)| + if Holds(KeyLeaf(t, key).entries, key) then 0 else 1
  {
    hide ValueLess, OfKind, Ok, EntriesOk, Position, Holds, Concat, AllLess, AllMore;
    var ls, p := Leaves(t), LeafIndex(t, key);
    KeyAtIndex(t, k, order, depth, key);
    KeyLeafAt(t, key);
    EntriesAround(ls, p);
    PositionInMiddle(k, Concat(ls[..p]), ls[p].entries, Concat(ls[p + 1..]), key);
    if Holds(Entries(t), key) {
      HeldLess(Entries(t), key);
    }
  }

  /** The heap with the new root, if there is one. */
  function Rooted(nodes: Heap, i: Inserted): Heap {
    if i.split.None? then nodes
    else nodes[i.nextId := InnerNode([i.split.value.key], [i.tree.id, i.split.value.right.id])]
  }

  lemma RootPlaced(nodes: Heap, next: map<int, int>, prev: map<int, int>, i: Inserted, s: Option<(Value, int)>, from: int, t: Tree)
    requires Done(nodes, next, prev, i, s, [], []) && InsertedApart(t, i, from) && Bounded(t, from) && InsertedShaped(i) && from >= 0
    ensures Placed(Rooted(nodes, i), next, prev, if i.split.None? then i.nextId else i.nextId + 1, NewRoot(i), [], [])
  {
    hide Owns, Distinct, Shaped, Linked, Rep;
    NewRootLeaves(i);
    var r := NewRoot(i);
    assert forall x :: OwnedBy(i, x) ==> 0 <= x < i.nextId;
    assert forall x :: Owns(i.tree, x) ==> OwnedBy(i, x);
    if i.split.Some? {
      var right := i.split.value.right;
      assert forall x :: Owns(right, x) ==> OwnedBy(i, x);
      var kids := [i.tree, right];
      assert KidsApart(r.id, kids);
      assert KidsRep(nodes, kids);
      assert IdsOf(kids) == [i.tree.id, right.id];
      InnerRep(nodes, Rooted(nodes, i), r.id, r.id, r.id, r.keys, kids);
      forall x | Owns(r, x)
        ensures 0 <= x < i.nextId + 1
      {
        InnerOwns(r.id, r.keys, kids, x);
      }
      RootDistinct(r);
    }
  }

  ghost predicate InsertedShaped(i: Inserted) {
    Shaped(i.tree) && (i.split.Some? ==> Shaped(i.split.value.right))
  }

  lemma RootDistinct(r: Tree)
    requires r.Inner? && KidsApart(r.id, r.kids) && |r.kids| == |r.keys| + 1
    requires forall i :: 0 <= i < |r.kids| ==> Distinct(r.kids[i]) && Shaped(r.kids[i])
    ensures Distinct(r) && Shaped(r)
  {
  }

  lemma InsertShaped(i: Inserted, k: Kind, order: nat, depth: nat)
    requires RootOk(NewRoot(i), k, order, if i.split.None? then depth else depth + 1)
    ensures InsertedShaped(i) && Shaped(NewRoot(i))
  {
    hide ValueLess, OfKind, KeysOk, Ok;
    var r := NewRoot(i);
    OkShaped(r, k, order, None, None, if i.split.None? then depth else depth + 1);
    assert i.split.Some? ==> Shaped(r.kids[0]) && Shaped(r.kids[1]);
  }
}
