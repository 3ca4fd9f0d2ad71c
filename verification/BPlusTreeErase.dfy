/** Removal along a search path: the subtree a path leads to, the tree with that subtree
    replaced, and what dropping an emptied child keeps. */
module BPlusTreeErase {
  import opened Values
  import opened BPlusTreeModel
  import opened BPlusTreeInsert
  import opened BPlusTreeOrder
  import opened BPlusTreeHeap

  // ----- A search path

  /** The subtree a number of steps down a key's search path. */
  function Sub(t: Tree, key: Value, j: nat): (u: Tree)
    requires Shaped(t)
    ensures Shaped(u)
    decreases j
  {
    if j == 0 || t.Leaf? then t else Sub(t.kids[ChildIndex(t.keys, key)], key, j - 1)
  }

  /** The tree with that subtree replaced. */
  function Plug(t: Tree, key: Value, j: nat, x: Tree): Tree
    requires Shaped(t)
    decreases j
  {
    if j == 0 || t.Leaf? then x
    else
      var idx := ChildIndex(t.keys, key);
      Inner(t.id, t.keys, t.kids[idx := Plug(t.kids[idx], key, j - 1, x)])
  }

  /** The leaves to the left and to the right of the subtree. */
  function LeftOf(t: Tree, key: Value, j: nat): seq<Tree>
    requires Shaped(t)
    decreases j
  {
    if j == 0 || t.Leaf? then []
    else
      var idx := ChildIndex(t.keys, key);
      AllLeaves(t.kids[..idx]) + LeftOf(t.kids[idx], key, j - 1)
  }

  function RightOf(t: Tree, key: Value, j: nat): seq<Tree>
    requires Shaped(t)
    decreases j
  {
    if j == 0 || t.Leaf? then []
    else
      var idx := ChildIndex(t.keys, key);
      RightOf(t.kids[idx], key, j - 1) + AllLeaves(t.kids[idx + 1..])
  }

  lemma {:induction false} SubStep(t: Tree, key: Value, j: nat)
    requires Shaped(t) && Sub(t, key, j).Inner?
    ensures var y := Sub(t, key, j);
      Sub(t, key, j + 1) == y.kids[ChildIndex(y.keys, key)]
    ensures forall i :: 0 <= i <= j ==> Sub(t, key, i).Inner?
    decreases j
  {
    hide ChildIndex;
    if j > 0 && t.Inner? {
      SubStep(t.kids[ChildIndex(t.keys, key)], key, j - 1);
      forall i | 0 <= i <= j
        ensures Sub(t, key, i).Inner?
      {
        assert i > 0 ==> Sub(t.kids[ChildIndex(t.keys, key)], key, i - 1).Inner?;
      }
    }
  }

  /** Replacing a subtree is replacing its parent with that child replaced. */
  lemma {:induction false} PlugStep(t: Tree, key: Value, j: nat, x: Tree)
    requires Shaped(t) && Sub(t, key, j).Inner?
    ensures var y := Sub(t, key, j);
      Plug(t, key, j + 1, x) == Plug(t, key, j, Inner(y.id, y.keys, y.kids[ChildIndex(y.keys, key) := x]))
    decreases j
  {
    hide ChildIndex;
    if j > 0 && t.Inner? {
      PlugStep(t.kids[ChildIndex(t.keys, key)], key, j - 1, x);
    }
  }

  lemma {:induction false} PlugSub(t: Tree, key: Value, j: nat)
    requires Shaped(t)
    ensures Plug(t, key, j, Sub(t, key, j)) == t
    decreases j
  {
    if j > 0 && t.Inner? {
      PlugSub(t.kids[ChildIndex(t.keys, key)], key, j - 1);
    }
  }

  lemma {:induction false} PlugId(t: Tree, key: Value, j: nat, x: Tree)
    requires Shaped(t) && x.id == Sub(t, key, j).id
    ensures Plug(t, key, j, x).id == t.id
  {
  }

  // ----- The leaves

  lemma {:induction false} PlugLeaves(t: Tree, key: Value, j: nat, x: Tree)
    requires Shaped(t)
    ensures Leaves(Plug(t, key, j, x)) == LeftOf(t, key, j) + Leaves(x) + RightOf(t, key, j)
    decreases j
  {
    hide AllLeaves, ChildIndex;
    if j > 0 && t.Inner? {
      var idx := ChildIndex(t.keys, key);
      var u := t.kids[idx];
      PlugLeaves(u, key, j - 1, x);
      LeavesReplaced(t.kids, idx, Plug(u, key, j - 1, x));
      Nest(AllLeaves(t.kids[..idx]), LeftOf(u, key, j - 1), Leaves(x), RightOf(u, key, j - 1), AllLeaves(t.kids[idx + 1..]));
    }
  }

  lemma Nest(a: seq<Tree>, b: seq<Tree>, m: seq<Tree>, c: seq<Tree>, d: seq<Tree>)
    ensures a + (b + m + c) + d == (a + b) + m + (c + d)
  {
  }

  lemma {:induction false} SidesStep(t: Tree, key: Value, j: nat)
    requires Shaped(t) && Sub(t, key, j).Inner?
    ensures var y := Sub(t, key, j);
      var idx := ChildIndex(y.keys, key);
      && LeftOf(t, key, j + 1) == LeftOf(t, key, j) + AllLeaves(y.kids[..idx])
      && RightOf(t, key, j + 1) == AllLeaves(y.kids[idx + 1..]) + RightOf(t, key, j)
    decreases j
  {
    hide AllLeaves, ChildIndex;
    if j > 0 && t.Inner? {
      var idx := ChildIndex(t.keys, key);
      var u := t.kids[idx];
      SidesStep(u, key, j - 1);
      SidesUnfold(t, key, j);
      SidesUnfold(t, key, j + 1);
      hide LeftOf, RightOf, Leaves;
      var y := Sub(u, key, j - 1);
      var c := ChildIndex(y.keys, key);
      assert AllLeaves(t.kids[..idx]) + (LeftOf(u, key, j - 1) + AllLeaves(y.kids[..c]))
          == (AllLeaves(t.kids[..idx]) + LeftOf(u, key, j - 1)) + AllLeaves(y.kids[..c]);
      assert (AllLeaves(y.kids[c + 1..]) + RightOf(u, key, j - 1)) + AllLeaves(t.kids[idx + 1..])
          == AllLeaves(y.kids[c + 1..]) + (RightOf(u, key, j - 1) + AllLeaves(t.kids[idx + 1..]));
    }
  }

  lemma SidesUnfold(t: Tree, key: Value, j: nat)
    requires Shaped(t) && t.Inner? && j > 0
    ensures var idx := ChildIndex(t.keys, key);
      && LeftOf(t, key, j) == AllLeaves(t.kids[..idx]) + LeftOf(t.kids[idx], key, j - 1)
      && RightOf(t, key, j) == RightOf(t.kids[idx], key, j - 1) + AllLeaves(t.kids[idx + 1..])
  {
    hide AllLeaves, ChildIndex;
  }

  /** At the bottom of the path stands the key's leaf. */
  lemma {:induction false} SidesAreIndex(t: Tree, key: Value, j: nat)
    requires Shaped(t) && Sub(t, key, j).Leaf?
    ensures |LeftOf(t, key, j)| == LeafIndex(t, key) && Sub(t, key, j) == KeyLeaf(t, key)
    decreases j
  {
    hide AllLeaves, ChildIndex;
    if j > 0 && t.Inner? {
      SidesAreIndex(t.kids[ChildIndex(t.keys, key)], key, j - 1);
    }
  }

  // ----- The order

  function LoAt(t: Tree, key: Value, lo: Bound, j: nat): Bound
    requires Shaped(t)
    decreases j
  {
    if j == 0 || t.Leaf? then lo
    else
      var idx := ChildIndex(t.keys, key);
      LoAt(t.kids[idx], key, KidLo(t.keys, lo, idx), j - 1)
  }

  function HiAt(t: Tree, key: Value, hi: Bound, j: nat): Bound
    requires Shaped(t)
    decreases j
  {
    if j == 0 || t.Leaf? then hi
    else
      var idx := ChildIndex(t.keys, key);
      HiAt(t.kids[idx], key, KidHi(t.keys, hi, idx), j - 1)
  }

  lemma {:induction false} SubOk(t: Tree, k: Kind, order: nat, lo: Bound, hi: Bound, depth: nat, key: Value, j: nat)
    requires Ok(t, k, order, lo, hi, depth) && Shaped(t) && j <= depth
    ensures Ok(Sub(t, key, j), k, order, LoAt(t, key, lo, j), HiAt(t, key, hi, j), depth - j)
    decreases j
  {
    hide ChildIndex, KeysOk, EntriesOk, Within;
    if j > 0 {
      var idx := ChildIndex(t.keys, key);
      SubOk(t.kids[idx], k, order, KidLo(t.keys, lo, idx), KidHi(t.keys, hi, idx), depth - 1, key, j - 1);
    }
  }

  lemma {:induction false} PlugOk(t: Tree, k: Kind, order: nat, lo: Bound, hi: Bound, depth: nat, key: Value, j: nat, x: Tree)
    requires Ok(t, k, order, lo, hi, depth) && Shaped(t) && j <= depth
    requires Ok(x, k, order, LoAt(t, key, lo, j), HiAt(t, key, hi, j), depth - j)
    ensures Ok(Plug(t, key, j, x), k, order, lo, hi, depth)
    decreases j
  {
    hide ChildIndex, KeysOk, EntriesOk, Within;
    if j > 0 {
      var idx := ChildIndex(t.keys, key);
      PlugOk(t.kids[idx], k, order, KidLo(t.keys, lo, idx), KidHi(t.keys, hi, idx), depth - 1, key, j - 1, x);
    }
  }

  lemma SubStart(t: Tree, key: Value)
    requires Shaped(t)
    ensures Sub(t, key, 0) == t
  {
  }

  /** The path reaches a leaf exactly at the tree's depth. */
  lemma PathDepth(t: Tree, k: Kind, order: nat, depth: nat, key: Value, j: nat)
    requires RootOk(t, k, order, depth) && Shaped(t) && j <= depth
    ensures Sub(t, key, j).Inner? <==> j < depth
  {
    hide Sub, KeysOk, EntriesOk, Within;
    SubOk(t, k, order, None, None, depth, key, j);
  }

  /** The separator that goes with a dropped child. */
  function DropKey(keys: seq<Value>, ci: nat): seq<Value>
    requires ci <= |keys|
  {
    if keys == [] then []
    else
      var ki := if ci > 0 then ci - 1 else 0;
      keys[..ki] + keys[ki + 1..]
  }

  function DropAt<T>(s: seq<T>, ci: nat): seq<T>
    requires ci < |s|
  {
    s[..ci] + s[ci + 1..]
  }

  /** An inner node without one of its children. */
  function Dropped(y: Tree, ci: nat): Tree
    requires y.Inner? && ci < |y.kids| == |y.keys| + 1
  {
    Inner(y.id, DropKey(y.keys, ci), DropAt(y.kids, ci))
  }

  lemma DropKeysOk(k: Kind, keys: seq<Value>, lo: Bound, hi: Bound, ci: nat)
    requires KeysOk(k, keys, lo, hi) && ci <= |keys| && keys != []
    ensures KeysOk(k, DropKey(keys, ci), lo, hi)
  {
    hide KeyOk, ValueLess;
  }

  /** A child whose bounds grow stays ordered. */
  lemma {:induction false} OkWider(t: Tree, k: Kind, order: nat, lo: Bound, hi: Bound, lo': Bound, hi': Bound, depth: nat)
    requires Ok(t, k, order, lo, hi, depth) && BoundOk(k, lo) && BoundOk(k, hi) && BoundOk(k, lo') && BoundOk(k, hi')
    requires lo' == lo || lo'.None? || (lo.Some? && ValueLess(lo'.value, lo.value))
    requires hi' == hi || hi'.None? || (hi.Some? && ValueLess(hi.value, hi'.value))
    ensures Ok(t, k, order, lo', hi', depth)
    decreases t
  {
    match t
    case Leaf(_, es) =>
      EntriesWider(k, es, lo, hi, lo', hi');
    case Inner(_, keys, kids) =>
      KeysWider(k, keys, lo, hi, lo', hi');
      hide ValueLess, OfKind;
      forall i | 0 <= i < |kids|
        ensures Ok(kids[i], k, order, KidLo(keys, lo', i), KidHi(keys, hi', i), depth - 1)
      {
        KidBounds(k, keys, lo, hi, i);
        KidBounds(k, keys, lo', hi', i);
        OkWider(kids[i], k, order, KidLo(keys, lo, i), KidHi(keys, hi, i), KidLo(keys, lo', i), KidHi(keys, hi', i), depth - 1);
      }
  }

  lemma EntriesWider(k: Kind, es: seq<Entry>, lo: Bound, hi: Bound, lo': Bound, hi': Bound)
    requires EntriesOk(k, es) && Within(es, lo, hi) && BoundOk(k, lo) && BoundOk(k, hi) && BoundOk(k, lo') && BoundOk(k, hi')
    requires lo' == lo || lo'.None? || (lo.Some? && ValueLess(lo'.value, lo.value))
    requires hi' == hi || hi'.None? || (hi.Some? && ValueLess(hi.value, hi'.value))
    ensures Within(es, lo', hi')
  {
    hide ValueLess, OfKind;
    Order(k);
    forall i | 0 <= i < |es|
      ensures Above(es[i].key, lo') && Below(es[i].key, hi')
    {
      assert EntryOk(k, es[i]);
    }
  }

  lemma KeysWider(k: Kind, keys: seq<Value>, lo: Bound, hi: Bound, lo': Bound, hi': Bound)
    requires KeysOk(k, keys, lo, hi) && BoundOk(k, lo) && BoundOk(k, hi) && BoundOk(k, lo') && BoundOk(k, hi')
    requires lo' == lo || lo'.None? || (lo.Some? && ValueLess(lo'.value, lo.value))
    requires hi' == hi || hi'.None? || (hi.Some? && ValueLess(hi.value, hi'.value))
    ensures KeysOk(k, keys, lo', hi')
  {
    hide ValueLess, OfKind;
    Order(k);
    forall i | 0 <= i < |keys|
      ensures KeyOk(k, keys[i], lo', hi')
    {
      assert KeyOk(k, keys[i], lo, hi);
    }
  }

  /** A node stays ordered without one of its children: a neighbour's bounds take its range in. */
  lemma DroppedOk(k: Kind, order: nat, y: Tree, lo: Bound, hi: Bound, depth: nat, ci: nat)
    requires Ok(y, k, order, lo, hi, depth) && BoundOk(k, lo) && BoundOk(k, hi) && y.Inner? && ci < |y.kids| && |y.kids| >= 2
    ensures Ok(Dropped(y, ci), k, order, lo, hi, depth)
  {
    hide ValueLess, OfKind, KeyOk;
    var keys, kids := y.keys, y.kids;
    var keys', kids' := DropKey(keys, ci), DropAt(kids, ci);
    DropKeysOk(k, keys, lo, hi, ci);
    forall i | 0 <= i < |kids'|
      ensures Ok(kids'[i], k, order, KidLo(keys', lo, i), KidHi(keys', hi, i), depth - 1)
    {
      var o := if i < ci then i else i + 1;
      assert kids'[i] == kids[o];
      KidBounds(k, keys, lo, hi, o);
      KidBounds(k, keys', lo, hi, i);
      DroppedBounds(k, keys, lo, hi, ci, i);
      OkWider(kids[o], k, order, KidLo(keys, lo, o), KidHi(keys, hi, o), KidLo(keys', lo, i), KidHi(keys', hi, i), depth - 1);
    }
  }

  lemma DroppedBounds(k: Kind, keys: seq<Value>, lo: Bound, hi: Bound, ci: nat, i: nat)
    requires KeysOk(k, keys, lo, hi) && ci <= |keys| && keys != [] && i < |keys|
    ensures var keys', o := DropKey(keys, ci), if i < ci then i else i + 1;
      var l, l', h, h' := KidLo(keys, lo, o), KidLo(keys', lo, i), KidHi(keys, hi, o), KidHi(keys', hi, i);
      && (l' == l || l'.None? || (l.Some? && ValueLess(l'.value, l.value)))
      && (h' == h || h'.None? || (h.Some? && ValueLess(h.value, h'.value)))
  {
    hide ValueLess, OfKind, KeyOk, DropKey;
    DroppedSame(keys, lo, hi, ci, i);
    var v := keys[if ci == 0 then 0 else ci - 1];
    assert KeyOk(k, v, lo, hi);
    StrictlyBetween(k, v, lo, hi);
  }

  /** Dropping a child moves one bound: its right neighbour's lower one when it was the first,
      otherwise its left neighbour's upper one. */
  lemma DroppedSame(keys: seq<Value>, lo: Bound, hi: Bound, ci: nat, i: nat)
    requires ci <= |keys| && keys != [] && i < |keys|
    ensures |DropKey(keys, ci)| == |keys| - 1
    ensures var keys', o := DropKey(keys, ci), if i < ci then i else i + 1;
      && KidLo(keys', lo, i) == (if ci == 0 && i == 0 then lo else KidLo(keys, lo, o))
      && KidHi(keys', hi, i) == (if ci > 0 && i == ci - 1 then KidHi(keys, hi, ci) else KidHi(keys, hi, o))
  {
    hide DropKey;
    if i > 0 {
      DropKeyAt(keys, ci, i - 1);
    }
    if i < |keys| - 1 {
      DropKeyAt(keys, ci, i);
    }
    DropKeyLength(keys, ci);
  }

  lemma DropKeyLength(keys: seq<Value>, ci: nat)
    requires ci <= |keys| && keys != []
    ensures |DropKey(keys, ci)| == |keys| - 1
  {
  }

  lemma DropKeyAt(keys: seq<Value>, ci: nat, i: nat)
    requires ci <= |keys| && i < |keys| - 1
    ensures |DropKey(keys, ci)| == |keys| - 1
    ensures DropKey(keys, ci)[i] == keys[if i < (if ci > 0 then ci - 1 else 0) then i else i + 1]
  {
  }

  lemma StrictlyBetween(k: Kind, v: Value, lo: Bound, hi: Bound)
    requires KeyOk(k, v, lo, hi)
    ensures lo.Some? ==> ValueLess(lo.value, v)
    ensures hi.Some? ==> ValueLess(v, hi.value)
  {
    hide ValueLess, OfKind;
  }

  // ----- The heap

  lemma {:induction false} PlugOwns(t: Tree, key: Value, j: nat, x: Tree, n: int)
    requires Shaped(t) && Owns(x, n)
    ensures Owns(Plug(t, key, j, x), n)
    decreases j
  {
    hide Owns, ChildIndex;
    if j > 0 && t.Inner? {
      var idx := ChildIndex(t.keys, key);
      PlugOwns(t.kids[idx], key, j - 1, x, n);
      OwnsKid(Plug(t, key, j, x), idx, n);
    }
  }

  lemma {:induction false} PlugRep(nodes: Heap, t: Tree, key: Value, j: nat, x: Tree)
    requires Shaped(t) && Rep(nodes, Plug(t, key, j, x))
    ensures Rep(nodes, x)
    decreases j
  {
    hide ChildIndex;
    if j > 0 && t.Inner? {
      var idx := ChildIndex(t.keys, key);
      assert Rep(nodes, Plug(t, key, j, x).kids[idx]);
      PlugRep(nodes, t.kids[idx], key, j - 1, x);
    }
  }

  ghost predicate OwnsLess(x': Tree, x: Tree) {
    forall n :: Owns(x', n) ==> Owns(x, n)
  }

  /** The heap is unchanged outside a tree. */
  ghost predicate SameOff(nodes: Heap, nodes': Heap, x: Tree) {
    forall n :: n in nodes && !Owns(x, n) ==> n in nodes' && nodes'[n] == nodes[n]
  }

  lemma SiblingsSame(nodes: Heap, nodes': Heap, p: Tree, idx: nat, x: Tree)
    requires p.Inner? && idx < |p.kids| && Distinct(p) && Rep(nodes, p)
    requires SameOff(nodes, nodes', x) && forall n :: Owns(x, n) ==> Owns(p.kids[idx], n)
    ensures forall i :: 0 <= i < |p.kids| && i != idx ==> Rep(nodes', p.kids[i])
    ensures p.id in nodes' && nodes'[p.id] == nodes[p.id]
  {
    hide Owns;
    forall i | 0 <= i < |p.kids| && i != idx
      ensures Rep(nodes', p.kids[i])
    {
      assert Apart(p.kids[if i < idx then i else idx], p.kids[if i < idx then idx else i]);
      RepFrame(nodes, nodes', p.kids[i]);
    }
  }

  /** Rewriting the nodes of the subtree alone puts the new subtree in the old one's place. */
  lemma {:induction false} PlugChange(nodes: Heap, nodes': Heap, t: Tree, key: Value, j: nat, x: Tree, x': Tree)
    requires Shaped(t) && Rep(nodes, Plug(t, key, j, x)) && Distinct(Plug(t, key, j, x))
    requires Rep(nodes', x') && x'.id == x.id && SameOff(nodes, nodes', x)
    ensures Rep(nodes', Plug(t, key, j, x'))
    ensures Plug(t, key, j, x').id == Plug(t, key, j, x).id
    decreases j
  {
    hide ChildIndex, Owns;
    if j > 0 && t.Inner? {
      var idx := ChildIndex(t.keys, key);
      var p := Plug(t, key, j, x);
      var u := t.kids[idx];
      assert p.kids[idx] == Plug(u, key, j - 1, x) && Rep(nodes, p.kids[idx]) && Distinct(p.kids[idx]);
      PlugChange(nodes, nodes', u, key, j - 1, x, x');
      forall n | Owns(x, n)
        ensures Owns(p.kids[idx], n)
      {
        PlugOwns(u, key, j - 1, x, n);
      }
      SiblingsSame(nodes, nodes', p, idx, x);
      var kids' := t.kids[idx := Plug(u, key, j - 1, x')];
      assert IdsOf(kids') == IdsOf(p.kids);
      assert forall i :: 0 <= i < |kids'| && i != idx ==> kids'[i] == p.kids[i];
    }
  }

  lemma KidOwnsLess(p: Tree, idx: nat, u: Tree)
    requires p.Inner? && idx < |p.kids| && Distinct(p) && Distinct(u) && OwnsLess(u, p.kids[idx])
    ensures Distinct(Inner(p.id, p.keys, p.kids[idx := u])) && OwnsLess(Inner(p.id, p.keys, p.kids[idx := u]), p)
  {
    hide Owns;
    var p' := Inner(p.id, p.keys, p.kids[idx := u]);
    forall i, j | 0 <= i < j < |p.kids|
      ensures Apart(p'.kids[i], p'.kids[j])
    {
      assert Apart(p.kids[i], p.kids[j]);
    }
    forall n | Owns(p', n)
      ensures Owns(p, n)
    {
      InnerOwns(p'.id, p'.keys, p'.kids, n);
      InnerOwns(p.id, p.keys, p.kids, n);
      if n != p.id {
        var i :| 0 <= i < |p'.kids| && Owns(p'.kids[i], n);
        assert Owns(p.kids[i], n);
      }
    }
  }

  lemma {:induction false} PlugDistinct(t: Tree, key: Value, j: nat, x: Tree, x': Tree)
    requires Shaped(t) && Distinct(Plug(t, key, j, x)) && Distinct(x') && OwnsLess(x', x)
    ensures Distinct(Plug(t, key, j, x')) && OwnsLess(Plug(t, key, j, x'), Plug(t, key, j, x))
    decreases j
  {
    hide ChildIndex, Owns;
    if j > 0 && t.Inner? {
      var idx := ChildIndex(t.keys, key);
      var p := Plug(t, key, j, x);
      assert p.kids[idx] == Plug(t.kids[idx], key, j - 1, x) && Distinct(p.kids[idx]);
      PlugDistinct(t.kids[idx], key, j - 1, x, x');
      KidOwnsLess(p, idx, Plug(t.kids[idx], key, j - 1, x'));
      assert p.kids[idx := Plug(t.kids[idx], key, j - 1, x')] == t.kids[idx := Plug(t.kids[idx], key, j - 1, x')];
    }
  }

  /** Below the root no node is the root. */
  lemma PlugNotRoot(t: Tree, key: Value, j: nat, x: Tree)
    requires Shaped(t) && t.Inner? && j > 0 && Distinct(Plug(t, key, j, x))
    ensures x.id != t.id
  {
    hide Owns, ChildIndex;
    var idx := ChildIndex(t.keys, key);
    OwnsRoot(x);
    PlugOwns(t.kids[idx], key, j - 1, x, x.id);
    assert !Owns(Plug(t, key, j, x).kids[idx], t.id);
  }

  /** A tree in the heap under a root, its leaves the chain. */
  ghost predicate Standing(nodes: Heap, next: map<int, int>, prev: map<int, int>, nextId: int, t: Tree) {
    Rep(nodes, t) && Distinct(t) && Bounded(t, nextId) && Linked(next, prev, IdsOf(Leaves(t)))
  }

  /** The whole tree stands after the subtree at the end of the path has changed. */
  lemma PlugStands(nodes: Heap, next: map<int, int>, prev: map<int, int>, nodes': Heap, next': map<int, int>, prev': map<int, int>, nextId: int,
                   t: Tree, key: Value, j: nat, x: Tree, x': Tree)
    requires Shaped(t) && Standing(nodes, next, prev, nextId, Plug(t, key, j, x))
    requires Rep(nodes', x') && x'.id == x.id && SameOff(nodes, nodes', x) && Distinct(x') && OwnsLess(x', x)
    requires Linked(next', prev', IdsOf(LeftOf(t, key, j) + Leaves(x') + RightOf(t, key, j)))
    ensures Standing(nodes', next', prev', nextId, Plug(t, key, j, x'))
  {
    hide Owns, Linked, Plug, LeftOf, RightOf, Leaves;
    PlugChange(nodes, nodes', t, key, j, x, x');
    PlugDistinct(t, key, j, x, x');
    PlugLeaves(t, key, j, x');
  }

  /** Dropping an emptied child from its parent's node, and freeing it. */
  lemma DroppedRep(nodes: Heap, nodes': Heap, z: Tree, ci: nat)
    requires z.Inner? && ci < |z.kids| == |z.keys| + 1 && Rep(nodes, z) && Distinct(z)
    requires nodes' == nodes[z.id := InnerNode(DropKey(z.keys, ci), DropAt(IdsOf(z.kids), ci))] - {z.kids[ci].id}
    ensures Rep(nodes', Dropped(z, ci)) && Distinct(Dropped(z, ci)) && OwnsLess(Dropped(z, ci), z) && SameOff(nodes, nodes', z)
  {
    hide Owns;
    var d := Dropped(z, ci);
    var a := z.kids[ci].id;
    OwnsRoot(z.kids[ci]);
    OwnsRoot(z);
    OwnsKid(z, ci, a);
    forall i | 0 <= i < |d.kids|
      ensures d.kids[i] == z.kids[if i < ci then i else i + 1] && !Owns(d.kids[i], a) && !Owns(d.kids[i], z.id) && Distinct(d.kids[i])
    {
      var o := if i < ci then i else i + 1;
      assert Apart(z.kids[if o < ci then o else ci], z.kids[if o < ci then ci else o]);
    }
    assert a != z.id;
    assert IdsOf(d.kids) == DropAt(IdsOf(z.kids), ci);
    InnerRep(nodes, nodes', z.id, a, d.id, d.keys, d.kids);
    DroppedOwns(z, ci);
  }

  lemma DroppedOwns(z: Tree, ci: nat)
    requires z.Inner? && ci < |z.kids| == |z.keys| + 1 && Distinct(z)
    ensures Distinct(Dropped(z, ci)) && OwnsLess(Dropped(z, ci), z)
  {
    hide Owns;
    var d := Dropped(z, ci);
    forall i | 0 <= i < |d.kids|
      ensures d.kids[i] == z.kids[if i < ci then i else i + 1]
    {
    }
    forall i, j | 0 <= i < j < |d.kids|
      ensures Apart(d.kids[i], d.kids[j])
    {
      assert Apart(z.kids[if i < ci then i else i + 1], z.kids[if j < ci then j else j + 1]);
    }
    forall n | Owns(d, n)
      ensures Owns(z, n)
    {
      InnerOwns(d.id, d.keys, d.kids, n);
      if n != d.id {
        var i :| 0 <= i < |d.kids| && Owns(d.kids[i], n);
        OwnsKid(z, if i < ci then i else i + 1, n);
      } else {
        OwnsRoot(z);
      }
    }
  }

  /** The leaves of a node without one of its children. */
  lemma DroppedLeaves(z: Tree, ci: nat)
    requires z.Inner? && ci < |z.kids| == |z.keys| + 1
    ensures Leaves(Dropped(z, ci)) == AllLeaves(z.kids[..ci]) + AllLeaves(z.kids[ci + 1..])
  {
    hide AllLeaves;
    AllLeavesAppend(z.kids[..ci], z.kids[ci + 1..]);
  }

  // ----- The multimap

  /** Any first equal key is at the position. */
  lemma FirstEqual(k: Kind, es: seq<Entry>, key: Value, pos: nat)
    requires EntriesOk(k, es) && OfKind(k, key) && pos <= |es|
    requires forall i :: 0 <= i < pos ==> !Equal(es[i].key, key)
    requires pos < |es| ==> Equal(es[pos].key, key)
    ensures Holds(es, key) <==> pos < |es|
    ensures pos < |es| ==> Position(es, key) == pos
  {
    hide ValueLess, OfKind, Position, EntriesOk;
    var p := HeldAt(k, es, key);
    EqualIs(k, es, key);
    if Holds(es, key) {
      HeldLess(es, key);
    }
  }

  lemma EqualIs(k: Kind, es: seq<Entry>, key: Value)
    requires EntriesOk(k, es) && OfKind(k, key)
    ensures forall i :: 0 <= i < |es| ==> (Equal(es[i].key, key) <==> es[i].key == key)
  {
    hide ValueLess, OfKind;
    forall i | 0 <= i < |es|
      ensures Equal(es[i].key, key) <==> es[i].key == key
    {
      assert EntryOk(k, es[i]);
      ValueLessTotal(k, es[i].key, key);
    }
  }

  /** The tree with its key's leaf emptied of one record holds the multimap without it. */
  lemma RemoveAtLeaf(t: Tree, k: Kind, order: nat, depth: nat, key: Value, rid: RecordID, j: nat)
    requires RootOk(t, k, order, depth) && Shaped(t) && OfKind(k, key) && Sub(t, key, j).Leaf?
    ensures var l := Sub(t, key, j);
      && Concat(LeftOf(t, key, j)) + RemoveEntry(l.entries, key, rid) + Concat(RightOf(t, key, j)) == RemoveEntry(Entries(t), key, rid)
      && Find(Entries(t), key) == Find(l.entries, key)
      && |Entries(t)| == |Concat(LeftOf(t, key, j))| + |l.entries| + |Concat(RightOf(t, key, j))|
      && EntriesOk(k, l.entries)
  {
    hide ValueLess, OfKind, Ok, Position, Holds, Concat, AllLess, AllMore, Find, RemoveEntry, LeafIndex, Sub, LeftOf, RightOf;
    var l := Sub(t, key, j);
    var a, c := LeftOf(t, key, j), RightOf(t, key, j);
    KeyAtIndex(t, k, order, depth, key);
    PlugSub(t, key, j);
    PlugLeaves(t, key, j, l);
    SidesAreIndex(t, key, j);
    var ls := Leaves(t);
    assert ls == a + [l] + c;
    assert ls[..|a|] == a && ls[|a| + 1..] == c && ls[|a|] == l;
    EntriesAround(ls, |a|);
    PositionInMiddle(k, Concat(a), l.entries, Concat(c), key);
    RemoveInMiddle(k, Concat(a), l.entries, Concat(c), key, rid);
    FindInMiddle(k, Concat(a), l.entries, Concat(c), key);
  }

  // ----- Pruning up the path

  /** What stands at level `j` of the path while emptied nodes are pruned: at the bottom the
      changed leaf, above it the path's node without the child that has gone. */
  ghost predicate PruneState(t: Tree, key: Value, depth: nat, leaf: Tree, j: nat, x: Tree)
    requires Shaped(t)
  {
    && j <= depth && x.id == Sub(t, key, j).id && leaf.Leaf?
    && (j == depth ==> x == leaf)
    && (j < depth ==>
          var y := Sub(t, key, j);
          leaf.entries == [] && y.Inner? && |y.kids| == |y.keys| + 1 && x == Dropped(y, ChildIndex(y.keys, key)))
  }

  /** The leaves left when the path's leaf has changed, or has gone. */
  function LeavesLeft(t: Tree, key: Value, depth: nat, leaf: Tree, gone: bool): seq<Tree>
    requires Shaped(t)
  {
    if gone then LeftOf(t, key, depth) + RightOf(t, key, depth)
    else LeftOf(t, key, depth) + [leaf] + RightOf(t, key, depth)
  }

  /** Dropping the path's child from the node above leaves the leaves at its sides. */
  lemma StepLeaves(t: Tree, key: Value, j: nat)
    requires Shaped(t) && Sub(t, key, j).Inner? && |Sub(t, key, j).kids| == |Sub(t, key, j).keys| + 1
    ensures var y := Sub(t, key, j);
      Leaves(Plug(t, key, j, Dropped(y, ChildIndex(y.keys, key)))) == LeftOf(t, key, j + 1) + RightOf(t, key, j + 1)
  {
    hide AllLeaves, Leaves, ChildIndex, Sub, Plug, LeftOf, RightOf, Dropped;
    var y := Sub(t, key, j);
    var ci := ChildIndex(y.keys, key);
    PlugLeaves(t, key, j, Dropped(y, ci));
    DroppedLeaves(y, ci);
    SidesStep(t, key, j);
    Flatten(LeftOf(t, key, j), AllLeaves(y.kids[..ci]), AllLeaves(y.kids[ci + 1..]), RightOf(t, key, j));
  }

  lemma Flatten(a: seq<Tree>, b: seq<Tree>, c: seq<Tree>, d: seq<Tree>)
    ensures a + (b + c) + d == (a + b) + (c + d)
  {
  }

  /** The state after one more node is pruned. */
  lemma PruneStep(t: Tree, key: Value, depth: nat, leaf: Tree, j: nat, x: Tree)
    requires Shaped(t) && PruneState(t, key, depth, leaf, j, x) && j > 0
    requires Emptied(x)
    requires Sub(t, key, j - 1).Inner? && |Sub(t, key, j - 1).kids| == |Sub(t, key, j - 1).keys| + 1
    requires j < depth ==> Leaves(Plug(t, key, j, x)) == LeavesLeft(t, key, depth, leaf, true)
    ensures var y := Sub(t, key, j - 1);
      var ci := ChildIndex(y.keys, key);
      && PruneState(t, key, depth, leaf, j - 1, Dropped(y, ci))
      && Leaves(Plug(t, key, j - 1, Dropped(y, ci))) == LeavesLeft(t, key, depth, leaf, true)
      && Plug(t, key, j, x) == Plug(t, key, j - 1, Inner(y.id, y.keys, y.kids[ci := x]))
      && Dropped(Inner(y.id, y.keys, y.kids[ci := x]), ci) == Dropped(y, ci)
  {
    hide Sub, Plug, LeftOf, RightOf, ChildIndex, AllLeaves;
    var y := Sub(t, key, j - 1);
    var ci := ChildIndex(y.keys, key);
    PlugStep(t, key, j - 1, x);
    StepLeaves(t, key, j - 1);
    assert DropAt(y.kids[ci := x], ci) == DropAt(y.kids, ci);
    if j < depth {
      PlugLeaves(t, key, j, x);
      NoKids(x);
      assert LeftOf(t, key, j) + [] + RightOf(t, key, j) == LeftOf(t, key, j) + RightOf(t, key, j);
    }
  }

  lemma NoKids(x: Tree)
    requires x.Inner? && x.kids == []
    ensures Leaves(x) == []
  {
  }

  /** When pruning stops the tree is ordered again. */
  lemma PrunedOk(t: Tree, k: Kind, order: nat, depth: nat, key: Value, leaf: Tree, j: nat, x: Tree)
    requires RootOk(t, k, order, depth) && Shaped(t) && PruneState(t, key, depth, leaf, j, x)
    requires Ok(leaf, k, order, LoAt(t, key, None, depth), HiAt(t, key, None, depth), 0)
    requires j == 0 || !Emptied(x)
    ensures Ok(Plug(t, key, j, x), k, order, None, None, depth)
    ensures x.Inner? ==> x.kids != []
  {
    hide Sub, Plug, LoAt, HiAt, ChildIndex, KeysOk, EntriesOk, Within;
    SubOk(t, k, order, None, None, depth, key, j);
    BoundsAt(t, k, order, None, None, depth, key, j);
    if j < depth {
      SubStart(t, key);
      var y := Sub(t, key, j);
      DroppedOk(k, order, y, LoAt(t, key, None, j), HiAt(t, key, None, j), depth - j, ChildIndex(y.keys, key));
    }
    PlugOk(t, k, order, None, None, depth, key, j, x);
  }

  lemma {:induction false} BoundsAt(t: Tree, k: Kind, order: nat, lo: Bound, hi: Bound, depth: nat, key: Value, j: nat)
    requires Ok(t, k, order, lo, hi, depth) && Shaped(t) && BoundOk(k, lo) && BoundOk(k, hi)
    ensures BoundOk(k, LoAt(t, key, lo, j)) && BoundOk(k, HiAt(t, key, hi, j))
    decreases j
  {
    hide ChildIndex, EntriesOk, Within, OfKind, KeysOk;
    if j > 0 && t.Inner? {
      var idx := ChildIndex(t.keys, key);
      KidBounds(k, t.keys, lo, hi, idx);
      BoundsAt(t.kids[idx], k, order, KidLo(t.keys, lo, idx), KidHi(t.keys, hi, idx), depth - 1, key, j - 1);
    }
  }

  lemma PlugLeavesLeft(t: Tree, key: Value, depth: nat, leaf: Tree)
    requires Shaped(t) && leaf.Leaf?
    ensures Leaves(Plug(t, key, depth, leaf)) == LeavesLeft(t, key, depth, leaf, false)
  {
    hide LeftOf, RightOf, Plug;
    PlugLeaves(t, key, depth, leaf);
  }

  ghost predicate Emptied(x: Tree) {
    if x.Leaf? then x.entries == [] else x.kids == []
  }

  /** The node at hand is the root only at the top of the path. */
  lemma TopIsRoot(t: Tree, k: Kind, order: nat, depth: nat, key: Value, j: nat, x: Tree)
    requires Shaped(t) && RootOk(t, k, order, depth) && j <= depth && Distinct(Plug(t, key, j, x))
    ensures x.id == t.id ==> j == 0
  {
    hide Plug, Distinct, Ok, ChildIndex;
    if j > 0 {
      SubStart(t, key);
      PathDepth(t, k, order, depth, key, 0);
      PlugNotRoot(t, key, j, x);
    }
  }

  lemma {:induction false} PlugDistinctAt(t: Tree, key: Value, j: nat, x: Tree)
    requires Shaped(t) && Distinct(Plug(t, key, j, x))
    ensures Distinct(x)
    decreases j
  {
    hide ChildIndex, Owns;
    if j > 0 && t.Inner? {
      var idx := ChildIndex(t.keys, key);
      assert Distinct(Plug(t, key, j, x).kids[idx]);
      PlugDistinctAt(t.kids[idx], key, j - 1, x);
    }
  }

  /** A single child standing in its parent's place. */
  lemma OnlyChild(nodes: Heap, u: Tree, nextId: int)
    requires u.Inner? && |u.kids| == 1 && Rep(nodes, u) && Distinct(u) && Bounded(u, nextId)
    ensures Rep(nodes - {u.id}, u.kids[0]) && Distinct(u.kids[0]) && Bounded(u.kids[0], nextId)
    ensures Leaves(u.kids[0]) == Leaves(u)
  {
    hide Owns, AllLeaves;
    RepFrame(nodes, nodes - {u.id}, u.kids[0]);
    KidBounded(u, 0, nextId);
    AllLeavesOne(u.kids[0]);
    assert u.kids == [u.kids[0]];
  }

  lemma OnlyChildOk(u: Tree, k: Kind, order: nat, depth: nat)
    requires Ok(u, k, order, None, None, depth) && u.Inner? && |u.kids| == 1
    ensures depth > 0 && Ok(u.kids[0], k, order, None, None, depth - 1)
  {
    hide KeysOk;
  }

  /** Writing the path's leaf changes the leaf alone. */
  lemma LeafChanged(nodes: Heap, next: map<int, int>, prev: map<int, int>, nextId: int, t: Tree, key: Value, j: nat, es: seq<Entry>)
    requires Shaped(t) && Standing(nodes, next, prev, nextId, t) && Sub(t, key, j).Leaf?
    ensures var id := Sub(t, key, j).id;
      Standing(nodes[id := LeafNode(es)], next, prev, nextId, Plug(t, key, j, Leaf(id, es)))
  {
    hide Linked, Plug, Sub, LeftOf, RightOf;
    var l := Sub(t, key, j);
    var l' := Leaf(l.id, es);
    PlugSub(t, key, j);
    PlugLeaves(t, key, j, l);
    var a, c := LeftOf(t, key, j), RightOf(t, key, j);
    IdsThree(a, [l], c);
    IdsThree(a, [l'], c);
    assert IdsOf([l]) == IdsOf([l']);
    PlugStands(nodes, next, prev, nodes[l.id := LeafNode(es)], next, prev, nextId, t, key, j, l, l');
  }

  lemma ReducedWithin(k: Kind, es: seq<Entry>, p: nat, rids: seq<RecordID>, lo: Bound, hi: Bound)
    requires EntriesOk(k, es) && Within(es, lo, hi) && p < |es|
    ensures EntriesOk(k, Reduced(es, p, rids)) && Within(Reduced(es, p, rids), lo, hi) && |Reduced(es, p, rids)| <= |es|
  {
    hide ValueLess, OfKind, Above, Below, EntryOk;
    forall i | 0 <= i < |es|
      ensures EntryOk(k, es[i]) && (rids != [] ==> EntryOk(k, Entry(es[i].key, rids)))
    {
      EntryRids(k, es[i], rids);
    }
  }

  lemma EntryRids(k: Kind, e: Entry, rids: seq<RecordID>)
    requires EntryOk(k, e)
    ensures rids != [] ==> EntryOk(k, Entry(e.key, rids))
  {
  }

  /** The path's leaf stays ordered with fewer records. */
  lemma LeafReducedOk(t: Tree, k: Kind, order: nat, depth: nat, key: Value, p: nat, rids: seq<RecordID>)
    requires RootOk(t, k, order, depth) && Shaped(t) && Sub(t, key, depth).Leaf? && p < |Sub(t, key, depth).entries|
    ensures var l := Sub(t, key, depth);
      Ok(Leaf(l.id, Reduced(l.entries, p, rids)), k, order, LoAt(t, key, None, depth), HiAt(t, key, None, depth), 0)
  {
    hide Sub, LoAt, HiAt, Reduced, EntriesOk, Within;
    SubOk(t, k, order, None, None, depth, key, depth);
    ReducedWithin(k, Sub(t, key, depth).entries, p, rids, LoAt(t, key, None, depth), HiAt(t, key, None, depth));
  }

  /** The entries of what is left. */
  lemma LeftEntries(t: Tree, key: Value, depth: nat, leaf: Tree, gone: bool)
    requires Shaped(t) && leaf.Leaf? && (gone ==> leaf.entries == [])
    ensures Concat(LeavesLeft(t, key, depth, leaf, gone)) == Concat(LeftOf(t, key, depth)) + leaf.entries + Concat(RightOf(t, key, depth))
  {
    hide Concat, LeftOf, RightOf;
    var a, c := LeftOf(t, key, depth), RightOf(t, key, depth);
    if gone {
      ConcatAppend(a, c);
      assert Concat(a) + [] + Concat(c) == Concat(a) + Concat(c);
    } else {
      ConcatAround(a, [leaf], c);
      ConcatLeaf(leaf);
    }
  }

  /** A changed leaf leaves the root as wide as it was. */
  lemma PlugRootOk(t: Tree, k: Kind, order: nat, depth: nat, key: Value, leaf: Tree)
    requires RootOk(t, k, order, depth) && Shaped(t) && leaf.Leaf?
    requires Ok(leaf, k, order, LoAt(t, key, None, depth), HiAt(t, key, None, depth), 0)
    ensures RootOk(Plug(t, key, depth, leaf), k, order, depth)
  {
    PlugOk(t, k, order, None, None, depth, key, depth, leaf);
  }

  lemma StandsPlaced(nodes: Heap, next: map<int, int>, prev: map<int, int>, nextId: int, t: Tree, k: Kind, order: nat, depth: nat)
    ensures Standing(nodes, next, prev, nextId, t) && RootOk(t, k, order, depth) ==> Placed(nodes, next, prev, nextId, t, [], [])
    ensures Placed(nodes, next, prev, nextId, t, [], []) ==> Standing(nodes, next, prev, nextId, t)
  {
    hide Ok, Linked, Leaves, Rep, Distinct, Shaped;
    assert [] + IdsOf(Leaves(t)) + [] == IdsOf(Leaves(t));
    if RootOk(t, k, order, depth) {
      OkShaped(t, k, order, None, None, depth);
    }
  }

  /** Without the record there is nothing to remove. */
  lemma NothingToRemove(k: Kind, es: seq<Entry>, key: Value, rid: RecordID)
    requires EntriesOk(k, es) && rid !in Find(es, key)
    ensures RemoveEntry(es, key, rid) == es
  {
    hide ValueLess, OfKind;
    if Holds(es, key) {
      HeldLess(es, key);
      assert EntryOk(k, es[Position(es, key)]);
      WithoutGone(es[Position(es, key)].rids, rid);
    }
  }

  // ----- Scanning the chain

  /** No record in the range lies before the leaf a scan starts at. */
  lemma ScanStart(t: Tree, k: Kind, order: nat, depth: nat, lo: Bound, hi: Bound, p: nat)
    requires RootOk(t, k, order, depth) && Shaped(t) && BoundOk(k, lo)
    requires p == (if lo.Some? then LeafIndex(t, lo.value) else 0) && p < |Leaves(t)|
    ensures Between(Concat(Leaves(t)[p..]), lo, hi) == Between(Entries(t), lo, hi)
  {
    hide ValueLess, OfKind, Ok, Between, Concat, AllLess, AllMore, EntriesOk, Leaves, LeafIndex;
    var ls := Leaves(t);
    assert ls == ls[..p] + ls[p..];
    ConcatAppend(ls[..p], ls[p..]);
    BetweenAppend(Concat(ls[..p]), Concat(ls[p..]), lo, hi);
    if lo.Some? {
      KeyAtIndex(t, k, order, depth, lo.value);
      BeforeRange(Concat(ls[..p]), lo.value, hi);
      assert [] + Between(Concat(ls[p..]), lo, hi) == Between(Concat(ls[p..]), lo, hi);
    } else {
      assert ls[0..] == ls;
    }
  }

  /** A leaf's entries and those of the leaves after it. */
  lemma LeafRest(k: Kind, ls: seq<Tree>, p: nat, t: Tree)
    requires p < |ls| && ls[p].Leaf? && EntriesOk(k, Concat(ls))
    ensures Concat(ls[p..]) == ls[p].entries + Concat(ls[p + 1..])
    ensures EntriesOk(k, ls[p].entries + Concat(ls[p + 1..]))
  {
    hide ValueLess, OfKind, Concat, EntriesOk;
    assert ls[p..] == [ls[p]] + ls[p + 1..];
    ConcatAppend([ls[p]], ls[p + 1..]);
    ConcatLeaf(ls[p]);
    assert ls == ls[..p] + ls[p..];
    ConcatAppend(ls[..p], ls[p..]);
    assert Concat(ls) == Concat(ls[..p]) + Concat(ls[p..]) + [];
    MiddleOk(k, Concat(ls[..p]), Concat(ls[p..]), []);
  }

  /** One step of a scan: a key below the range is passed over, one above it ends the scan. */
  lemma RestStep(k: Kind, es: seq<Entry>, i: nat, rest: seq<Entry>, lo: Bound, hi: Bound)
    requires EntriesOk(k, es + rest) && i < |es| && BoundOk(k, lo) && BoundOk(k, hi)
    ensures Between(es[i..] + rest, lo, hi) == (if InRange(es[i].key, lo, hi) then es[i].rids else []) + Between(es[i + 1..] + rest, lo, hi)
    ensures hi.Some? && ValueLess(hi.value, es[i].key) ==> Between(es[i..] + rest, lo, hi) == []
  {
    hide ValueLess, OfKind, Between, EntriesOk;
    var all := es + rest;
    assert es[i..] + rest == all[i..] && all[i] == es[i];
    assert all[i..][1..] == es[i + 1..] + rest;
    BetweenFirst(all[i..], lo, hi);
    if hi.Some? && ValueLess(hi.value, es[i].key) {
      PastRange(k, all, i, lo, hi.value);
    }
  }

  lemma NextLeaf(next: map<int, int>, prev: map<int, int>, ls: seq<Tree>, p: nat)
    requires Linked(next, prev, [] + IdsOf(ls) + []) && p < |ls|
    ensures ls[p].id in next && next[ls[p].id] == if p + 1 < |ls| then ls[p + 1].id else NIL
    ensures ls[p].id >= 0
  {
    assert [] + IdsOf(ls) + [] == IdsOf(ls);
    assert LinkOk(next, prev, IdsOf(ls), p);
  }

  lemma ScanEnd(ls: seq<Tree>, lo: Bound, hi: Bound)
    ensures Between(Concat(ls[|ls|..]), lo, hi) == []
  {
  }

  // ----- No leaf is empty, unless it is the root

  ghost predicate NoneEmpty(ls: seq<Tree>) {
    forall i :: 0 <= i < |ls| ==> ls[i].Leaf? && ls[i].entries != []
  }

  ghost predicate Packed(t: Tree) {
    t.Inner? ==> NoneEmpty(Leaves(t))
  }

  lemma InsertPacked(t: Tree, key: Value, rid: RecordID, order: nat, nextId: int)
    requires Shaped(t) && order >= 3 && Packed(t)
    ensures NoneEmpty(Grown(InsertTree(t, key, rid, order, nextId)))
  {
    hide AllLeaves, InsertTree, InsertLeaf, LeafIndex;
    InsertLeaves(t, key, rid, order, nextId);
    var ls, p := Leaves(t), LeafIndex(t, key);
    InsertLeafPacked(ls[p].id, ls[p].entries, key, rid, nextId, order);
  }

  lemma InsertLeafPacked(id: int, es: seq<Entry>, key: Value, rid: RecordID, nextId: int, order: nat)
    requires order >= 3
    ensures NoneEmpty(Grown(InsertLeaf(id, es, key, rid, nextId, order)))
  {
    hide Position;
    if Holds(es, key) {
      HeldLess(es, key);
    }
  }

  lemma LeftPacked(t: Tree, key: Value, depth: nat, leaf: Tree, gone: bool)
    requires Shaped(t) && t.Inner? && Packed(t) && leaf.Leaf? && (gone || leaf.entries != [])
    ensures NoneEmpty(LeavesLeft(t, key, depth, leaf, gone))
  {
    hide Leaves, LeftOf, RightOf, Plug, Sub;
    PlugSub(t, key, depth);
    PlugLeaves(t, key, depth, Sub(t, key, depth));
    var a, m, c := LeftOf(t, key, depth), Leaves(Sub(t, key, depth)), RightOf(t, key, depth);
    forall i | 0 <= i < |a|
      ensures a[i].Leaf? && a[i].entries != []
    {
      assert (a + m + c)[i] == a[i];
    }
    forall i | 0 <= i < |c|
      ensures c[i].Leaf? && c[i].entries != []
    {
      assert (a + m + c)[|a| + |m| + i] == c[i];
    }
  }

  lemma RootLeaf(u: Tree, k: Kind, order: nat, depth: nat)
    requires Ok(u, k, order, None, None, depth)
    ensures u.Leaf? <==> depth == 0
  {
    hide EntriesOk, KeysOk, Within;
  }

  lemma RootDepth(t: Tree, k: Kind, order: nat, depth: nat)
    requires RootOk(t, k, order, depth)
    ensures t.Leaf? <==> depth == 0
  {
    hide Ok;
    RootLeaf(t, k, order, depth);
  }
}
