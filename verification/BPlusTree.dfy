/** The in-memory B+ tree: nodes split recursively on the way up, leaves doubly linked, emptied
    nodes pruned along the search path. */
module BPlusTree {
  import opened Values
  import opened BPlusTreeModel
  import opened BPlusTreeInsert
  import opened BPlusTreeOrder
  import opened BPlusTreeHeap
  import opened BPlusTreeErase

  class BPlusTree {
    ghost const kind: Kind
    const order: nat
    var nodes: Heap
    var next: map<int, int>
    var prev: map<int, int>
    var root: int
    var distinctKeys: int
    var nextId: int
    ghost var shape: Tree
    ghost var depth: nat

    ghost predicate Valid()
      reads this
    {
      && order >= 3 && root == shape.id && nextId >= 0
      && RootOk(shape, kind, order, depth) && Packed(shape)
      && Placed(nodes, next, prev, nextId, shape, [], [])
      && distinctKeys == |Entries(shape)|
    }

    /** The multimap the tree stands for. */
    ghost function Contents(): seq<Entry>
      reads this
    {
      Entries(shape)
    }

    constructor (kind: Kind, order: int)
      ensures Valid() && Contents() == [] && this.kind == kind && this.order == (if order < 3 then 3 else order)
    {
      this.kind := kind;
      this.order := if order < 3 then 3 else order;
      nodes := map[0 := LeafNode([])];
      next, prev := map[0 := NIL], map[0 := NIL];
      root, distinctKeys, nextId := 0, 0, 1;
      shape, depth := Leaf(0, []), 0;
      new;
      ConcatLeaf(shape);
      assert [] + IdsOf(Leaves(shape)) + [] == [0];
    }

    // ----- Searching within a node

    /** The child to descend into. */
    static method FindChild(keys: seq<Value>, key: Value) returns (idx: nat)
      ensures idx == ChildIndex(keys, key)
    {
      idx := 0;
      while idx < |keys| && !ValueLess(key, keys[idx])
        invariant idx <= |keys|
        invariant ChildIndex(keys, key) == idx + ChildIndex(keys[idx..], key)
      {
        assert keys[idx..][1..] == keys[idx + 1..];
        idx := idx + 1;
      }
    }

    /** Where a key stands, or would stand, in a leaf. */
    static method FindPosition(es: seq<Entry>, key: Value) returns (pos: nat)
      ensures pos == Position(es, key)
    {
      pos := 0;
      while pos < |es| && ValueLess(es[pos].key, key)
        invariant pos <= |es|
        invariant Position(es, key) == pos + Position(es[pos..], key)
      {
        assert es[pos..][1..] == es[pos + 1..];
        pos := pos + 1;
      }
    }

    // ----- Insertion

    method SplitLeafNode(node: int, ghost before: seq<int>, ghost after: seq<int>) returns (key: Value, right: int)
      requires node in nodes && nodes[node].LeafNode? && |nodes[node].entries| >= 2 && 0 <= node < nextId
      requires Linked(next, prev, before + [node] + after)
      requires (forall i :: 0 <= i < |before| ==> before[i] < nextId) && forall i :: 0 <= i < |after| ==> after[i] < nextId
      modifies `nodes, `next, `prev, `nextId
      ensures var es, mid := old(nodes)[node].entries, |old(nodes)[node].entries| / 2;
        && key == es[mid].key && right == old(nextId)
        && nodes == old(nodes)[node := LeafNode(es[..mid])][right := LeafNode(es[mid..])]
      ensures nextId == old(nextId) + 1
      ensures Linked(next, prev, before + [node, right] + after)
    {
      var es := nodes[node].entries;
      var mid := |es| / 2;
      right := nextId;
      nextId := nextId + 1;
      nodes := nodes[node := LeafNode(es[..mid])][right := LeafNode(es[mid..])];
      LinkAt(next, prev, before, node, after);
      LinkedWith(next, prev, before, node, after, right);
      var n := next[node];
      next := next[right := n];
      prev := prev[right := node];
      if n != NIL {
        prev := prev[n := right];
      }
      next := next[node := right];
      key := es[mid].key;
    }

    method InsertAtLeaf(node: int, key: Value, rid: RecordID, ghost t: Tree, ghost before: seq<int>, ghost after: seq<int>)
      returns (s: Option<(Value, int)>)
      requires order >= 3 && t.Leaf? && node == t.id && Placed(nodes, next, prev, nextId, t, before, after)
      modifies `nodes, `next, `prev, `distinctKeys, `nextId
      ensures var i := InsertTree(t, key, rid, order, old(nextId));
        Done(nodes, next, prev, i, s, before, after) && nextId == i.nextId
      ensures Kept(old(nodes), nodes, t, old(nextId))
      ensures distinctKeys == old(distinctKeys) + if Holds(t.entries, key) then 0 else 1
    {
      hide ValueLess, Position, Linked, Done, InsertTree;
      var es := nodes[node].entries;
      var pos := FindPosition(es, key);
      assert IdsOf(Leaves(t)) == [node];
      OwnsRoot(t);
      if pos < |es| && Equal(es[pos].key, key) {
        nodes := nodes[node := LeafNode(es[pos := Entry(es[pos].key, es[pos].rids + [rid])])];
        LeafFits(nodes, next, prev, t, key, rid, order, nextId, before, after);
        s := None;
        return;
      }
      es := es[..pos] + [Entry(key, [rid])] + es[pos..];
      nodes := nodes[node := LeafNode(es)];
      distinctKeys := distinctKeys + 1;
      if |es| > order {
        var up, right := SplitLeafNode(node, before, after);
        LeafSplits(nodes, next, prev, t, key, rid, order, old(nextId), up, before, after);
        s := Some((up, right));
      } else {
        LeafFits(nodes, next, prev, t, key, rid, order, nextId, before, after);
        s := None;
      }
    }

    method SplitInternalNode(node: int) returns (key: Value, right: int)
      requires node in nodes && nodes[node].InnerNode? && |nodes[node].keys| >= 1 && |nodes[node].children| == |nodes[node].keys| + 1
      modifies `nodes, `nextId
      ensures var keys, children, mid := old(nodes)[node].keys, old(nodes)[node].children, |old(nodes)[node].keys| / 2;
        && key == keys[mid] && right == old(nextId)
        && nodes == old(nodes)[node := InnerNode(keys[..mid], children[..mid + 1])][right := InnerNode(keys[mid + 1..], children[mid + 1..])]
      ensures nextId == old(nextId) + 1
    {
      var keys, children := nodes[node].keys, nodes[node].children;
      var mid := |keys| / 2;
      key := keys[mid];
      right := nextId;
      nextId := nextId + 1;
      nodes := nodes[node := InnerNode(keys[..mid], children[..mid + 1])][right := InnerNode(keys[mid + 1..], children[mid + 1..])];
    }

    /** A split child's new sibling becomes the next child; an overfull node splits in turn. */
    method AdoptChild(node: int, idx: nat, key: Value, right: int, ghost old0: Heap, ghost t: Tree, ghost below: Inserted, ghost from: int)
      returns (s: Option<(Value, int)>)
      requires order >= 3 && node == t.id && t.Inner? && idx < |t.kids| == |t.keys| + 1
      requires Rep(old0, t) && Distinct(t) && Bounded(t, from) && nextId == below.nextId
      requires InsertedApart(t.kids[idx], below, from) && below.split.Some?
      requires key == below.split.value.key && right == below.split.value.right.id
      requires Kept(old0, nodes, t.kids[idx], from) && Rep(nodes, below.tree) && Rep(nodes, below.split.value.right)
      modifies `nodes, `nextId
      ensures var i := Adopt(t.id, t.keys, t.kids[idx := below.tree], idx, below.split.value, below.nextId, order);
        && Rep(nodes, i.tree) && nextId == i.nextId
        && (s.Some? <==> i.split.Some?)
        && (s.Some? ==> s.value == (i.split.value.key, i.split.value.right.id) && Rep(nodes, i.split.value.right))
      ensures Kept(old0, nodes, t, from)
    {
      hide Owns, Distinct, Rep;
      ghost var kids1 := t.kids[idx := below.tree];
      ghost var kids' := kids1[..idx + 1] + [below.split.value.right] + kids1[idx + 1..];
      SiblingsAt(old0, nodes, t, idx, below.tree, from);
      var keys, children := nodes[node].keys, nodes[node].children;
      var keys' := keys[..idx] + [key] + keys[idx..];
      var children' := children[..idx + 1] + [right] + children[idx + 1..];
      assert children' == IdsOf(kids');
      ghost var nodes1 := nodes;
      nodes := nodes[node := InnerNode(keys', children')];
      AdoptedApart(t, idx, below, from);
      DoneAdopted(old0, nodes1, nodes, t, idx, below, from);
      s := None;
      if |keys'| > order {
        ghost var nodes2 := nodes;
        ghost var u := Inner(t.id, keys', kids');
        var up, sibling := SplitInternalNode(node);
        s := Some((up, sibling));
        KidsBounded(u, below.nextId);
        ghost var mid := |keys'| / 2;
        assert IdsOf(kids'[..mid + 1]) == children'[..mid + 1] && IdsOf(kids'[mid + 1..]) == children'[mid + 1..];
        SplitInnerRep(nodes2, nodes, node, keys', kids', below.nextId);
        OwnsRoot(t);
        KeptMore(old0, nodes2, nodes, t, node, below.nextId, from);
      }
    }

    method InsertRec(node: int, key: Value, rid: RecordID, ghost t: Tree, ghost before: seq<int>, ghost after: seq<int>) returns (s: Option<(Value, int)>)
      requires order >= 3 && node == t.id && Placed(nodes, next, prev, nextId, t, before, after)
      modifies `nodes, `next, `prev, `distinctKeys, `nextId
      ensures var i := InsertTree(t, key, rid, order, old(nextId));
        Done(nodes, next, prev, i, s, before, after) && nextId == i.nextId
      ensures Kept(old(nodes), nodes, t, old(nextId))
      ensures distinctKeys == old(distinctKeys) + if Holds(KeyLeaf(t, key).entries, key) then 0 else 1
      decreases t
    {
      hide ValueLess, Linked, Owns, AllLeaves, Holds, Done, Distinct, Adopt, InsertTree, Leaves, Grown;
      if nodes[node].LeafNode? {
        s := InsertAtLeaf(node, key, rid, t, before, after);
        return;
      }
      var idx := FindChild(nodes[node].keys, key);
      KidPlaced(nodes, next, prev, nextId, t, before, after, idx);
      ghost var from, nodes0 := nextId, nodes;
      ghost var below := InsertTree(t.kids[idx], key, rid, order, from);
      var b := InsertRec(nodes[node].children[idx], key, rid, t.kids[idx],
                         before + IdsOf(AllLeaves(t.kids[..idx])), IdsOf(AllLeaves(t.kids[idx + 1..])) + after);
      DoneSplit(nodes, next, prev, below, b, before + IdsOf(AllLeaves(t.kids[..idx])), IdsOf(AllLeaves(t.kids[idx + 1..])) + after);
      ReplacedIs(t, key, rid, order, from);
      if b.None? {
        DoneReplaced(nodes0, nodes, next, prev, t, key, rid, order, from, before, after);
        s := None;
        return;
      }
      KidBounded(t, idx, from);
      InsertApart(t.kids[idx], key, rid, order, from);
      ChainUp(next, prev, t, key, rid, order, from, before, after);
      s := AdoptChild(node, idx, b.value.0, b.value.1, nodes0, t, below, from);
      DoneIs(nodes, next, prev, InsertTree(t, key, rid, order, from), s, before, after);
    }

    method Insert(key: Value, rid: RecordID)
      requires Valid() && OfKind(kind, key)
      modifies this
      ensures Valid() && Contents() == InsertEntry(old(Contents()), key, rid)
    {
      hide ValueLess, OfKind, Position, Linked, Owns, Entries, RootOk, Holds, Rep, InsertEntry;
      ghost var t, from, d := shape, nextId, distinctKeys;
      ghost var i := InsertTree(t, key, rid, order, from);
      var s := InsertRec(root, key, rid, t, [], []);
      InsertApart(t, key, rid, order, from);
      InsertPacked(t, key, rid, order, from);
      NewRootLeaves(i);
      InsertRootOk(t, kind, order, depth, key, rid, from);
      InsertShaped(i, kind, order, depth);
      CountInserted(t, kind, order, depth, key, rid);
      RootPlaced(nodes, next, prev, i, s, from, t);
      if s.Some? {
        nodes := nodes[nextId := InnerNode([s.value.0], [root, s.value.1])];
        root := nextId;
        nextId := nextId + 1;
        depth := depth + 1;
      }
      shape := NewRoot(i);
    }

    // ----- Reading

    /** The leaf a key belongs to. */
    method FindLeaf(key: Value) returns (leaf: int)
      requires Valid()
      ensures LeafIndex(shape, key) < |Leaves(shape)| && leaf == Leaves(shape)[LeafIndex(shape, key)].id
    {
      hide ValueLess, Owns, AllLeaves, Linked, ChildIndex, Ok, Entries, Distinct, LeafIndex;
      KeyLeafAt(shape, key);
      leaf := root;
      ghost var t := shape;
      while nodes[leaf].InnerNode?
        invariant Shaped(t) && Rep(nodes, t) && leaf == t.id && KeyLeaf(t, key) == KeyLeaf(shape, key)
        decreases t
      {
        var idx := FindChild(nodes[leaf].keys, key);
        leaf := nodes[leaf].children[idx];
        t := t.kids[idx];
      }
    }

    method FirstLeaf() returns (leaf: int)
      requires Valid()
      ensures |Leaves(shape)| > 0 && leaf == Leaves(shape)[0].id
    {
      hide ValueLess, Owns, Linked, Ok, Entries, Distinct;
      leaf := root;
      ghost var t := shape;
      SomeLeaf(shape);
      while nodes[leaf].InnerNode?
        invariant Shaped(t) && Rep(nodes, t) && leaf == t.id
        invariant |Leaves(t)| > 0 && Leaves(t)[0] == Leaves(shape)[0]
        decreases t
      {
        SomeLeaf(t.kids[0]);
        LeavesAt(t.kids, 0);
        assert t.kids[..0] == [];
        leaf := nodes[leaf].children[0];
        t := t.kids[0];
      }
    }

    /** The records under a key, in insertion order. */
    method Lookup(key: Value) returns (rids: seq<RecordID>)
      requires Valid() && OfKind(kind, key)
      ensures rids == Find(Contents(), key)
    {
      hide ValueLess, OfKind, Owns, Linked, Ok, Distinct, LeafIndex, Leaves, EntriesOk, Position, Concat, AllLess, AllMore;
      var leaf := FindLeaf(key);
      ghost var ls, p := Leaves(shape), LeafIndex(shape, key);
      LeavesRep(nodes, shape);
      KeyAtIndex(shape, kind, order, depth, key);
      EntriesAround(ls, p);
      FindInMiddle(kind, Concat(ls[..p]), ls[p].entries, Concat(ls[p + 1..]), key);
      PositionInMiddle(kind, Concat(ls[..p]), ls[p].entries, Concat(ls[p + 1..]), key);
      var es := nodes[leaf].entries;
      var i := 0;
      while i < |es|
        invariant i <= |es| && forall j :: 0 <= j < i ==> !Equal(es[j].key, key)
      {
        if Equal(es[i].key, key) {
          FirstEqual(kind, es, key, i);
          return es[i].rids;
        }
        i := i + 1;
      }
      FirstEqual(kind, es, key, i);
      rids := [];
    }

    /** The records of one leaf in a range; `past` when a key above the range ends the scan. */
    method ScanLeaf(es: seq<Entry>, lo: Bound, hi: Bound, ghost rest: seq<Entry>) returns (out: seq<RecordID>, past: bool)
      requires EntriesOk(kind, es + rest) && BoundOk(kind, lo) && BoundOk(kind, hi)
      ensures Between(es + rest, lo, hi) == if past then out else out + Between(rest, lo, hi)
    {
      hide ValueLess, OfKind, EntriesOk, Between;
      out, past := [], false;
      var i := 0;
      assert es[0..] == es;
      while i < |es|
        invariant i <= |es|
        invariant out + Between(es[i..] + rest, lo, hi) == Between(es + rest, lo, hi)
      {
        RestStep(kind, es, i, rest, lo, hi);
        if lo.Some? && ValueLess(es[i].key, lo.value) {
          i := i + 1;
          continue;
        }
        if hi.Some? && ValueLess(hi.value, es[i].key) {
          past := true;
          return;
        }
        out := out + es[i].rids;
        i := i + 1;
      }
      assert es[i..] + rest == rest;
    }

    /** The records of all keys between two optional bounds, both inclusive, in key order. */
    method RangeScan(lo: Bound, hi: Bound) returns (out: seq<RecordID>)
      requires Valid() && BoundOk(kind, lo) && BoundOk(kind, hi)
      ensures out == Between(Contents(), lo, hi)
    {
      hide ValueLess, OfKind, Owns, Ok, Distinct, LeafIndex, Leaves, EntriesOk, Position, Concat, AllLess, AllMore, Between;
      var leaf: int;
      ghost var ls, p := Leaves(shape), 0;
      if lo.Some? {
        leaf := FindLeaf(lo.value);
        p := LeafIndex(shape, lo.value);
      } else {
        leaf := FirstLeaf();
      }
      ScanStart(shape, kind, order, depth, lo, hi, p);
      LeavesRep(nodes, shape);
      EntriesSorted(shape, kind, order, None, None, depth);
      out := [];
      while leaf != NIL
        invariant p <= |ls| && leaf == (if p < |ls| then ls[p].id else NIL)
        invariant out + Between(Concat(ls[p..]), lo, hi) == Between(Entries(shape), lo, hi)
        decreases |ls| - p
      {
        LeafRest(kind, ls, p, shape);
        var part, past := ScanLeaf(nodes[leaf].entries, lo, hi, Concat(ls[p + 1..]));
        out := out + part;
        if past {
          return;
        }
        NextLeaf(next, prev, ls, p);
        leaf := next[leaf];
        p := p + 1;
      }
      ScanEnd(ls, lo, hi);
    }

    method Range(lo: Value, hi: Value) returns (out: seq<RecordID>)
      requires Valid() && OfKind(kind, lo) && OfKind(kind, hi)
      ensures out == Between(Contents(), Some(lo), Some(hi))
    {
      out := RangeScan(Some(lo), Some(hi));
    }

    // ----- Removal

    /** Takes a leaf out of the chain. */
    method Unlink(node: int, ghost before: seq<int>, ghost after: seq<int>)
      requires Linked(next, prev, before + [node] + after)
      modifies `next, `prev
      ensures Linked(next, prev, before + after)
    {
      LinkedWithout(next, prev, before, node, after);
      LinkAt(next, prev, before, node, after);
      var n, p := next[node], prev[node];
      if p != NIL {
        next := next[p := n];
      }
      if n != NIL {
        prev := prev[n := p];
      }
    }

    /** Drops the emptied child `ci` of a parent, its separator with it, and frees its node. */
    method Prune(parent: int, ci: nat, child: int, ghost z: Tree)
      requires z.Inner? && parent == z.id && Rep(nodes, z) && ci < |z.kids| == |z.keys| + 1 && child == z.kids[ci].id
      modifies `nodes
      ensures nodes == old(nodes)[parent := InnerNode(DropKey(z.keys, ci), DropAt(IdsOf(z.kids), ci))] - {child}
    {
      var keys, children := nodes[parent].keys, nodes[parent].children;
      children := children[..ci] + children[ci + 1..];
      if keys != [] {
        var ki := if ci > 0 then ci - 1 else 0;
        keys := keys[..ki] + keys[ki + 1..];
      }
      nodes := nodes[parent := InnerNode(keys, children)];
      nodes := nodes - {child};
    }

    /** The path from the root to a key's leaf, with the child taken at each node. */
    ghost predicate PathTo(path: seq<(int, nat)>, t: Tree, key: Value)
      requires Shaped(t)
    {
      forall i :: 0 <= i < |path| ==>
                    var y := Sub(t, key, i); y.Inner? && path[i] == (y.id, ChildIndex(y.keys, key))
    }

    method Descend(key: Value) returns (path: seq<(int, nat)>, leaf: int)
      requires Valid()
      ensures PathTo(path, shape, key) && |path| == depth
      ensures Sub(shape, key, depth).Leaf? && leaf == Sub(shape, key, depth).id && Rep(nodes, Sub(shape, key, depth))
    {
      hide ValueLess, Owns, AllLeaves, Linked, ChildIndex, Sub, Ok, Entries, Distinct;
      SubStart(shape, key);
      PathDepth(shape, kind, order, depth, key, 0);
      path, leaf := [], root;
      while nodes[leaf].InnerNode?
        invariant |path| <= depth && PathTo(path, shape, key)
        invariant leaf == Sub(shape, key, |path|).id && Rep(nodes, Sub(shape, key, |path|))
        invariant Sub(shape, key, |path|).Inner? <==> |path| < depth
        decreases depth - |path|
      {
        SubStep(shape, key, |path|);
        var idx := FindChild(nodes[leaf].keys, key);
        path := path + [(leaf, idx)];
        leaf := nodes[leaf].children[idx];
        PathDepth(shape, kind, order, depth, key, |path|);
      }
    }

    /** Drops the emptied node at the end of the path from the node above it; an emptied leaf
        leaves the chain first. */
    method PruneTop(parent: int, ci: nat, child: int, key: Value, ghost t: Tree, ghost l: Tree, ghost j: nat, ghost x: Tree) returns (ghost x': Tree)
      requires Shaped(t) && 0 < j <= depth && PruneState(t, key, depth, l, j, x) && Emptied(x) && x.id == child
      requires var y := Sub(t, key, j - 1); y.Inner? && parent == y.id && ci == ChildIndex(y.keys, key)
      requires Standing(nodes, next, prev, nextId, Plug(t, key, j, x))
      requires Leaves(Plug(t, key, j, x)) == LeavesLeft(t, key, depth, l, j < depth)
      modifies `nodes, `next, `prev
      ensures PruneState(t, key, depth, l, j - 1, x') && x'.id == parent
      ensures Standing(nodes, next, prev, nextId, Plug(t, key, j - 1, x'))
      ensures Leaves(Plug(t, key, j - 1, x')) == LeavesLeft(t, key, depth, l, true)
    {
      hide ValueLess, Owns, AllLeaves, Leaves, Linked, ChildIndex, Sub, Plug, Distinct;
      ghost var y := Sub(t, key, j - 1);
      assert Shaped(y);
      PruneStep(t, key, depth, l, j, x);
      ghost var z := Inner(y.id, y.keys, y.kids[ci := x]);
      x' := Dropped(y, ci);
      PlugRep(nodes, t, key, j, x);
      PlugRep(nodes, t, key, j - 1, z);
      PlugDistinctAt(t, key, j - 1, z);
      ghost var nodes0, next0, prev0 := nodes, next, prev;
      if nodes[child].LeafNode? {
        ghost var a, c := LeftOf(t, key, depth), RightOf(t, key, depth);
        IdsThree(a, [x], c);
        IdsAppend(a, c);
        assert IdsOf([x]) == [child];
        Unlink(child, IdsOf(a), IdsOf(c));
      }
      Prune(parent, ci, child, z);
      DroppedRep(nodes0, nodes, z, ci);
      PlugLeaves(t, key, j - 1, x');
      PlugStands(nodes0, next0, prev0, nodes, next, prev, nextId, t, key, j - 1, z, x');
    }

    /** Removes the emptied nodes at the end of the path, from the leaf up. */
    method PruneUp(path0: seq<(int, nat)>, leaf: int, key: Value, ghost t: Tree, ghost l: Tree) returns (ghost u: Tree)
      requires Shaped(t) && RootOk(t, kind, order, depth) && root == t.id
      requires PathTo(path0, t, key) && |path0| == depth && Sub(t, key, depth).id == leaf
      requires l.Leaf? && l.id == leaf && Ok(l, kind, order, LoAt(t, key, None, depth), HiAt(t, key, None, depth), 0)
      requires Standing(nodes, next, prev, nextId, Plug(t, key, depth, l))
      modifies `nodes, `next, `prev
      ensures Standing(nodes, next, prev, nextId, u) && root == u.id && Ok(u, kind, order, None, None, depth)
      ensures Leaves(u) == LeavesLeft(t, key, depth, l, depth > 0 && l.entries == [])
    {
      hide ValueLess, Owns, AllLeaves, Leaves, Linked, ChildIndex, Sub, Plug, Ok, LoAt, HiAt, Distinct, LeavesLeft, Dropped;
      var path, child := path0, leaf;
      ghost var x := l;
      PlugLeavesLeft(t, key, depth, l);
      while child != root && path != []
        invariant |path| <= depth && path == path0[..|path|]
        invariant PruneState(t, key, depth, l, |path|, x) && x.id == child
        invariant Standing(nodes, next, prev, nextId, Plug(t, key, |path|, x))
        invariant Leaves(Plug(t, key, |path|, x)) == LeavesLeft(t, key, depth, l, |path| < depth)
        decreases |path|
      {
        PlugRep(nodes, t, key, |path|, x);
        var empty := match nodes[child]
          case LeafNode(es) => es == []
          case InnerNode(_, children) => children == [];
        if !empty {
          break;
        }
        var (parent, ci) := path[|path| - 1];
        x := PruneTop(parent, ci, child, key, t, l, |path|, x);
        path := path[..|path| - 1];
        child := parent;
      }
      TopIsRoot(t, kind, order, depth, key, |path|, x);
      assert |path| == 0 || !Emptied(x);
      PrunedOk(t, kind, order, depth, key, l, |path|, x);
      u := Plug(t, key, |path|, x);
      PlugId(t, key, |path|, x);
    }

    /** A root with a single child gives way to it. */
    method Collapse(ghost u0: Tree) returns (ghost u: Tree, ghost d: nat)
      requires Standing(nodes, next, prev, nextId, u0) && root == u0.id && Ok(u0, kind, order, None, None, depth)
      modifies `nodes, `root
      ensures Standing(nodes, next, prev, nextId, u) && root == u.id && RootOk(u, kind, order, d)
      ensures Leaves(u) == Leaves(u0) && (u0.Leaf? ==> u.Leaf?)
    {
      hide ValueLess, Owns, AllLeaves, Leaves, Linked, Distinct, KeysOk;
      u, d := u0, depth;
      while nodes[root].InnerNode? && |nodes[root].children| == 1
        invariant Standing(nodes, next, prev, nextId, u) && root == u.id && Ok(u, kind, order, None, None, d)
        invariant Leaves(u) == Leaves(u0) && (u0.Leaf? ==> u == u0)
        decreases d
      {
        var only := nodes[root].children[0];
        ghost var nodes0 := nodes;
        nodes := nodes - {root};
        OnlyChild(nodes0, u, nextId);
        OnlyChildOk(u, kind, order, d);
        root := only;
        u, d := u.kids[0], d - 1;
      }
    }

    /** Rewrites the path's leaf without the record; a key left without records goes, and
        with it whatever nodes that empties. */
    method TakeOut(path: seq<(int, nat)>, leaf: int, key: Value, rid: RecordID, pos: nat)
      requires Valid() && OfKind(kind, key)
      requires PathTo(path, shape, key) && |path| == depth
      requires Sub(shape, key, depth).Leaf? && leaf == Sub(shape, key, depth).id && Rep(nodes, Sub(shape, key, depth))
      requires var es := Sub(shape, key, depth).entries;
        Holds(es, key) && pos == Position(es, key) && pos < |es| && rid in es[pos].rids
      modifies this
      ensures Valid() && Contents() == RemoveEntry(old(Contents()), key, rid)
    {
      hide ValueLess, OfKind, Owns, AllLeaves, Leaves, Linked, Distinct, Ok, RootOk, Sub, Plug, Concat, Position, Holds, EntriesOk, LoAt, HiAt, Shaped, Bounded, LeavesLeft, LeftOf, RightOf, Standing;
      ghost var t, l := shape, Sub(shape, key, depth);
      RootDepth(t, kind, order, depth);
      var es := nodes[leaf].entries;
      var rids := Without(es[pos].rids, rid);
      es := if rids == [] then es[..pos] + es[pos + 1..] else es[pos := Entry(es[pos].key, rids)];
      ghost var l' := Leaf(leaf, es);
      StandsPlaced(nodes, next, prev, nextId, t, kind, order, depth);
      LeafChanged(nodes, next, prev, nextId, t, key, depth, es);
      LeafReducedOk(t, kind, order, depth, key, pos, rids);
      RemoveAtLeaf(t, kind, order, depth, key, rid, depth);
      nodes := nodes[leaf := LeafNode(es)];
      if rids != [] {
        shape := Plug(t, key, depth, l');
        PlugRootOk(t, kind, order, depth, key, l');
        PlugLeavesLeft(t, key, depth, l');
        RootDepth(shape, kind, order, depth);
        LeftEntries(t, key, depth, l', false);
        PlugId(t, key, depth, l');
      } else {
        distinctKeys := distinctKeys - 1;
        ghost var u := PruneUp(path, leaf, key, t, l');
        LeftEntries(t, key, depth, l', depth > 0 && es == []);
        RootLeaf(u, kind, order, depth);
        ghost var v, d := Collapse(u);
        shape, depth := v, d;
      }
      StandsPlaced(nodes, next, prev, nextId, shape, kind, order, depth);
      if t.Inner? {
        LeftPacked(t, key, |path|, l', es == []);
      }
    }

    /** Removes one record under a key, with the leaf's key and whatever nodes that empties;
        says whether the record was there. */
    method Erase(key: Value, rid: RecordID) returns (removed: bool)
      requires Valid() && OfKind(kind, key)
      modifies this
      ensures Valid() && Contents() == RemoveEntry(old(Contents()), key, rid)
      ensures removed <==> rid in Find(old(Contents()), key)
    {
      hide ValueLess, OfKind, Ok, Sub, Entries, Distinct, Linked, Shaped, Bounded, Leaves, Position, Holds, EntriesOk, Without, RemoveEntry;
      ghost var t := shape;
      var path, leaf := Descend(key);
      RemoveAtLeaf(t, kind, order, depth, key, rid, depth);
      var es := nodes[leaf].entries;
      var pos := 0;
      while pos < |es| && !Equal(es[pos].key, key)
        invariant pos <= |es| && forall i :: 0 <= i < pos ==> !Equal(es[i].key, key)
        modifies {}
      {
        pos := pos + 1;
      }
      FirstEqual(kind, es, key, pos);
      removed := pos < |es| && rid in es[pos].rids;
      if removed {
        TakeOut(path, leaf, key, rid, pos);
      } else {
        EntriesSorted(t, kind, order, None, None, depth);
        NothingToRemove(kind, Contents(), key, rid);
      }
    }
  }
}
