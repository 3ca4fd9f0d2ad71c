/** The page-resident B+ tree: iterative insertion along a path of parents, splits
    by encoded size, linked leaves, lazy deletion. */
module DiskBPlusTree {
  import opened Values
  import opened Bytes
  import opened NodeCodec
  import opened DiskTreeModel

  // ----- Splits by count fit a page when no entry exceeds MAX_ENTRY bytes

  lemma {:induction false} EntriesSizeConcat(a: seq<Entry>, b: seq<Entry>)
    requires AllStorable(a) && AllStorable(b)
    ensures EntriesSize(a + b) == EntriesSize(a) + EntriesSize(b)
  {
    if b == [] {
      assert a + b == a;
    } else {
      var n := |b| - 1;
      assert (a + b)[..|a + b| - 1] == a + b[..n];
      EntriesSizeConcat(a, b[..n]);
    }
  }

  lemma {:induction false} EntriesSizeAtMost(es: seq<Entry>)
    requires SmallEntries(es)
    ensures AllStorable(es) && EntriesSize(es) <= MAX_ENTRY * |es|
  {
    hide EntrySize, Storable;
    if es != [] {
      EntriesSizeAtMost(es[..|es| - 1]);
    }
  }

  ghost predicate SmallEntries(es: seq<Entry>) {
    forall i :: 0 <= i < |es| ==> Storable(es[i]) && EntrySize(es[i]) <= MAX_ENTRY
  }

  /** The two sizes of a run cut at position m, with the bounds its counts impose. */
  lemma CutSizes(es: seq<Entry>, m: nat)
    requires SmallEntries(es) && m <= |es|
    ensures AllStorable(es) && AllStorable(es[..m]) && AllStorable(es[m..])
    ensures EntriesSize(es) == EntriesSize(es[..m]) + EntriesSize(es[m..])
    ensures 11 * m <= EntriesSize(es[..m]) <= 209 * m
    ensures 11 * (|es| - m) <= EntriesSize(es[m..]) <= 209 * (|es| - m)
  {
    hide EntrySize, Storable, EntriesSize;
    assert es == es[..m] + es[m..];
    EntriesSizeConcat(es[..m], es[m..]);
    EntriesSizeAtLeast(es[..m]);
    EntriesSizeAtLeast(es[m..]);
    EntriesSizeAtMost(es[..m]);
    EntriesSizeAtMost(es[m..]);
  }

  /** A leaf that one more small entry made too large splits by count into two leaves that fit. */
  lemma LeafSplitFits(es: seq<Entry>)
    requires SmallEntries(es)
    requires PAGE_SIZE < HEADER + EntriesSize(es) <= PAGE_SIZE + MAX_ENTRY
    ensures var mid := |es| / 2;
      && 0 < mid < |es| && AllStorable(es[..mid]) && AllStorable(es[mid..])
      && Measure(es[..mid], true) <= PAGE_SIZE
      && Measure(es[mid..], true) <= PAGE_SIZE
  {
    hide EntrySize, Storable, EntriesSize, AllStorable, SmallEntries;
    CutSizes(es, |es| / 2);
  }

  /** The same for an inner node, whose middle entry moves up to its parent. */
  lemma InnerSplitFits(es: seq<Entry>)
    requires SmallEntries(es)
    requires PAGE_SIZE < HEADER + EntriesSize(es) + 4 * (|es| + 1) <= PAGE_SIZE + MAX_ENTRY + 4
    ensures var mid := |es| / 2;
      && 0 < mid && mid + 1 < |es| && AllStorable(es[..mid]) && AllStorable(es[mid + 1..])
      && Measure(es[..mid], false) <= PAGE_SIZE
      && Measure(es[mid + 1..], false) <= PAGE_SIZE
  {
    hide EntrySize, Storable, EntriesSize, AllStorable, SmallEntries;
    var mid := |es| / 2;
    CutSizes(es, mid);
    CutSizes(es, mid + 1);
  }

  // ----- The tree

  class DiskBPlusTree {
    const kind: Kind
    /** The pages of the buffer pool, this tree's and others'. */
    var disk: map<int, seq<Byte>>
    var numPages: nat
    var rootId: int
    ghost var nodes: Nodes
    ghost var levels: seq<Level>
    ghost var height: map<int, nat>

    /** The pages of this tree hold exactly the images of its nodes. */
    ghost predicate PagesOk()
      reads this`disk, this`nodes, this`numPages
    {
      && numPages <= 0x7FFF_FFFF
      && (forall p :: p in disk ==> 0 <= p < numPages)
      && (forall p :: p in nodes ==> p in disk && Fits(nodes[p]) && disk[p] == PageImage(nodes[p]))
      && AllBranching(nodes)
    }

    ghost predicate Valid()
      reads this
    {
      && PagesOk()
      && (rootId == -1 ==> nodes == map[] && levels == [])
      && (rootId != -1 ==> TreeOk(kind, nodes, levels, rootId) && Heights(height, levels))
    }

    /** The live entries, in increasing (key, record id) order. */
    ghost function Run(): seq<Entry>
      requires Valid()
      reads this
    {
      if rootId == -1 then []
      else
        LeavesKnown(kind, nodes, levels[0]);
        Flatten(nodes, levels[0].ids)
    }

    /** The live entries as a set. */
    ghost function Live(): set<Entry>
      requires Valid()
      reads this
    {
      set e | e in Run()
    }

    constructor (kind: Kind, disk: map<int, seq<Byte>>, numPages: nat)
      requires numPages <= 0x7FFF_FFFF
      requires forall p :: p in disk ==> 0 <= p < numPages
      ensures Valid() && Live() == {} && levels == []
      ensures this.kind == kind && this.disk == disk && this.numPages == numPages
    {
      this.kind := kind;
      this.disk := disk;
      this.numPages := numPages;
      rootId := -1;
      nodes := map[];
      levels := [];
      height := map[];
    }

    /** Reads the node stored in one of the tree's pages. */
    method Read(pageId: int) returns (view: NodeView)
      requires PagesOk() && pageId in nodes
      ensures view == nodes[pageId]
    {
      view := ReadNode(disk[pageId], nodes[pageId]);
    }

    /** Overwrites one of the tree's pages. */
    method Write(pageId: int, view: NodeView)
      requires PagesOk() && pageId in nodes && Fits(view) && Branching(view)
      modifies this`disk, this`nodes
      ensures PagesOk() && nodes == old(nodes)[pageId := view]
      ensures disk.Keys == old(disk.Keys)
      ensures forall p :: p in disk && p != pageId ==> disk[p] == old(disk)[p]
    {
      var d := WriteNode(view);
      disk := disk[pageId := d[..]];
      nodes := nodes[pageId := view];
    }

    /** Takes a new page from the pool for a node of level t. */
    method Alloc(view: NodeView, ghost t: nat) returns (pageId: int)
      requires PagesOk() && Fits(view) && Branching(view) && numPages < 0x7FFF_FFFF
      modifies this`disk, this`nodes, this`numPages, this`height
      ensures PagesOk() && pageId == old(numPages) && numPages == old(numPages) + 1
      ensures pageId !in old(nodes) && pageId !in old(disk)
      ensures nodes == old(nodes)[pageId := view] && height == old(height)[pageId := t]
      ensures forall p :: p in old(disk) ==> p in disk && disk[p] == old(disk)[p]
    {
      pageId := numPages;
      numPages := numPages + 1;
      var d := WriteNode(view);
      disk := disk[pageId := d[..]];
      nodes := nodes[pageId := view];
      height := height[pageId := t];
    }

    /** Writes the two halves of a node: the right one to a new page, the left one in place. */
    method WriteHalves(pageId: int, left: NodeView, right: NodeView, ghost t: nat) returns (rightId: int)
      requires PagesOk() && pageId in nodes && Fits(left) && Fits(right) && numPages < 0x7FFF_FFFF
      requires Branching(left) && Branching(right)
      modifies this`disk, this`nodes, this`numPages, this`height
      ensures PagesOk() && rightId == old(numPages) && numPages == old(numPages) + 1
      ensures nodes == old(nodes)[pageId := left][rightId := right] && height == old(height)[rightId := t]
      ensures rightId !in old(nodes)
      ensures forall p :: p in old(disk) && p !in old(nodes) ==> p in disk && p !in nodes && disk[p] == old(disk)[p]
    {
      hide PagesOk, Fits;
      rightId := Alloc(right, t);
      Write(pageId, left);
      assert nodes == old(nodes)[pageId := left][rightId := right];
    }

    // ----- Descent

    /** The path from the root to the leaf where an entry belongs, as page ids and as positions. */
    ghost predicate IsPath(e: Entry, leafId: int, path: seq<int>, pos: seq<nat>)
      reads this
    {
      && |pos| == |levels| == |path| + 1
      && (forall t :: 0 <= t < |levels| ==> At(levels, pos, e, t))
      && (forall t :: 0 < t < |levels| ==> Step(levels, path, pos, t))
      && pos[0] < |levels[0].ids| && leafId == levels[0].ids[pos[0]]
    }

    method FindLeaf(e: Entry) returns (leafId: int, path: seq<int>, ghost pos: seq<nat>)
      requires Valid() && rootId != -1
      ensures IsPath(e, leafId, path, pos)
    {
      hide PagesOk, LeavesOk, Fits, Less, Heights, Linked, LeafOk, Covers, Under;
      leafId := rootId;
      path := [];
      ghost var t := |levels| - 1;
      pos := seq(|levels|, _ => 0);
      RootCovers(kind, nodes, levels, rootId, e);
      while true
        invariant 0 <= t < |levels| == |pos| && |path| == |levels| - 1 - t
        invariant forall x :: t <= x < |levels| ==> At(levels, pos, e, x)
        invariant forall x :: t < x < |levels| ==> Step(levels, path, pos, x)
        invariant pos[t] < |levels[t].ids| && leafId == levels[t].ids[pos[t]]
        decreases t
      {
        IdKnown(kind, nodes, levels, rootId, t, pos[t]);
        var view := Read(leafId);
        if view.leaf {
          return;
        }
        ghost var path0, pos0 := path, pos;
        path := path + [leafId];
        var idx := ChildIndex(view, e);
        assert At(levels, pos, e, t);
        assert Linked(kind, nodes, levels[t], levels[t - 1]);
        ghost var p := DescendStep(kind, nodes, levels, pos, e, t, view, idx);
        leafId := view.children[idx];
        pos := pos[t - 1 := p];
        forall x | t <= x < |levels| ensures At(levels, pos, e, x) && Step(levels, path, pos, x) {
          assert At(levels, pos0, e, x);
          assert t < x ==> Step(levels, path0, pos0, x);
        }
        t := t - 1;
      }
    }

    method FirstLeaf() returns (leafId: int)
      requires Valid() && rootId != -1
      ensures 0 < |levels[0].ids| && leafId == levels[0].ids[0]
    {
      hide PagesOk, LeavesOk, Fits, Less, Heights;
      leafId := rootId;
      ghost var t := |levels| - 1;
      while true
        invariant 0 <= t < |levels| && 0 < |levels[t].ids| && leafId == levels[t].ids[0]
        decreases t
      {
        IdKnown(kind, nodes, levels, rootId, t, 0);
        var view := Read(leafId);
        if view.leaf {
          return;
        }
        assert Linked(kind, nodes, levels[t], levels[t - 1]);
        assert InnerOk(nodes, levels[t], levels[t - 1], 0);
        leafId := view.children[0];
        t := t - 1;
      }
    }

    // ----- Reads

    /** The record ids in range, in increasing (key, record id) order. */
    method RangeScan(lo: Option<Value>, hi: Option<Value>) returns (out: seq<RecordID>)
      requires Valid()
      requires lo.Some? ==> Comparable(kind, lo.value)
      requires hi.Some? ==> Comparable(kind, hi.value)
      ensures out == Scan(Run(), lo, hi)
    {
      hide PagesOk, Less, Heights, Linked, LeafOk, Covers, Sorted, AllOk, InRange, OfKind, Comparable, LeavesOk, Scan;
      out := [];
      ScanNone([], lo, hi);
      if rootId == -1 {
        return;
      }
      ghost var ids := levels[0].ids;
      LeavesKnown(kind, nodes, levels[0]);
      PageIds();
      ghost var c := 0;
      var leafId;
      if lo.Some? {
        var path; ghost var pos;
        leafId, path, pos := FindLeaf(Entry(lo.value, MIN_RID));
        c := pos[0];
        assert At(levels, pos, Entry(lo.value, MIN_RID), 0);
        SkippedLeaves(kind, nodes, levels[0], c, lo.value, hi);
      } else {
        leafId := FirstLeaf();
      }
      while leafId != -1
        invariant 0 <= c <= |ids| && leafId == (if c < |ids| then ids[c] else -1)
        invariant out == Scan(Flatten(nodes, ids[..c]), lo, hi)
        decreases |ids| - c
      {
        var leaf := Read(leafId);
        LeafFields(kind, nodes, levels[0], c);
        assert ids[..c + 1][..c] == ids[..c];
        var done; ghost var at;
        out, done, at := ScanLeaf(leaf.entries, lo, hi, out, Flatten(nodes, ids[..c]));
        if done {
          StoppedEarly(kind, nodes, levels[0], c, at, lo, hi);
          return;
        }
        assert leaf.entries[..at] == leaf.entries;
        leafId := leaf.nextLeaf;
        c := c + 1;
        NextKnown(kind, nodes, levels[0], c);
      }
      assert ids[..c] == ids;
    }

    method Lookup(key: Value) returns (out: seq<RecordID>)
      requires Valid() && Comparable(kind, key)
      ensures out == Scan(Run(), Some(key), Some(key))
    {
      out := RangeScan(Some(key), Some(key));
    }

    lemma PageIds()
      requires PagesOk()
      ensures forall p :: p in nodes ==> 0 <= p < numPages <= 0x7FFF_FFFF
    {
    }

    lemma PageFits(pageId: int)
      requires PagesOk() && pageId in nodes
      ensures Fits(nodes[pageId]) && AllStorable(nodes[pageId].entries)
      ensures Measure(nodes[pageId].entries, nodes[pageId].leaf) <= PAGE_SIZE
    {
    }

    // ----- Updates

    /** Lazy deletion: the entry leaves its leaf, no page is merged or freed. */
    method Erase(key: Value, rid: RecordID) returns (found: bool)
      requires Valid() && OfKind(kind, key)
      modifies this`disk, this`nodes
      ensures Valid()
      ensures found == (Entry(key, rid) in old(Live()))
      ensures Live() == old(Live()) - {Entry(key, rid)}
      ensures forall p :: p in disk && p !in old(nodes) ==> p in old(disk) && disk[p] == old(disk)[p]
    {
      hide PagesOk, Less, Linked, LeafOk, Covers, Sorted, AllOk, Fits, Heights, LeavesOk;
      if rootId == -1 {
        return false;
      }
      var e := Entry(key, rid);
      var leafId, path; ghost var pos;
      leafId, path, pos := FindLeaf(e);
      LeavesKnown(kind, nodes, levels[0]);
      assert At(levels, pos, e, 0);
      var leaf := Read(leafId);
      LeafFields(kind, nodes, levels[0], pos[0]);
      OnlyAt(kind, nodes, levels[0], pos[0], e);
      var i := FindInLeaf(leaf, e, kind);
      if i == |leaf.entries| {
        return false;
      }
      var v := leaf.(entries := leaf.entries[..i] + leaf.entries[i + 1..]);
      ghost var nodes0 := nodes;
      LeafErase(kind, nodes, levels[0], pos[0], i);
      PageFits(leafId);
      RemoveFits(leaf, i);
      Write(leafId, v);
      TreeReplaceLeaf(kind, nodes0, levels, rootId, height, pos[0], v);
      LeavesKnown(kind, nodes, levels[0]);
      forall x ensures x in Live() <==> x in old(Live()) && x != e {
        FlattenErase(kind, nodes0, levels[0], pos[0], v, i, e, x);
      }
      return true;
    }

    /** Adds an entry; an entry already present leaves the tree as it is. Entries of at most
        MAX_ENTRY bytes never overflow a page. */
    method Insert(key: Value, rid: RecordID)
      requires Valid() && EntryOk(kind, Entry(key, rid))
      requires numPages + |levels| + 1 <= 0x7FFF_FFFF
      modifies this
      ensures Valid()
      ensures Live() == old(Live()) + {Entry(key, rid)}
      ensures |levels| <= old(|levels|) + 1 && LeafCount(levels) <= old(LeafCount(levels)) + 1
      ensures numPages - Width(levels) == old(numPages - Width(levels))
      ensures old(rootId) != -1 && OneLeafTakes(old(levels), old(Run()), Entry(key, rid)) ==> levels == old(levels)
      ensures forall p :: p in old(disk) && p !in old(nodes) ==> p in disk && disk[p] == old(disk)[p]
    {
      hide PagesOk, Less, Linked, LeafOk, Covers, Sorted, AllOk, Fits, Heights, LeavesOk, EntryOk, Pending, OneLeafTakes, Width, Flatten, Storable, EntriesSize, EntrySize, InsertAt;
      var e := Entry(key, rid);
      if rootId == -1 {
        WidthNone();
        Plant(e);
        return;
      }
      EntryOkKind(kind, e);
      var leafId, path; ghost var pos;
      leafId, path, pos := FindLeaf(e);
      assert At(levels, pos, e, 0) && forall t :: 0 < t < |levels| ==> Step(levels, path, pos, t);
      LeavesKnown(kind, nodes, levels[0]);
      var leaf := Read(leafId);
      LeafFields(kind, nodes, levels[0], pos[0]);
      PageFits(leafId);
      var p := InsertionPoint(leaf.entries, e);
      SortedAround(kind, leaf.entries, e, p);
      var found := Present(leaf.entries, p, e, kind);
      if found {
        OnlyAt(kind, nodes, levels[0], pos[0], e);
        return;
      }
      GrownLeaf(kind, leaf.entries, e, p, levels[0].bounds, pos[0]);
      var es := InsertAt(leaf.entries, p, e);
      GrowSize(kind, leaf, e, p);
      if Measure(es, true) <= PAGE_SIZE {
        GrowLeaf(leafId, leaf, es, pos[0], p, e);
      } else {
        OneLeaf(kind, nodes, levels, rootId, pos[0], e);
        SplitLeaf(leafId, leaf, es, path, pos, p, e);
      }
    }

    /** The first entry of an empty tree becomes a root leaf. */
    method Plant(e: Entry)
      requires Valid() && rootId == -1 && EntryOk(kind, e) && numPages < 0x7FFF_FFFF
      modifies this
      ensures Valid() && Live() == old(Live()) + {e}
      ensures |levels| == 1 && LeafCount(levels) == 1 && numPages - Width(levels) == old(numPages)
      ensures forall p :: p in old(disk) && p !in old(nodes) ==> p in disk && disk[p] == old(disk)[p]
    {
      hide PagesOk, Less, Linked, LeafOk, Fits, Heights, LeavesOk, EntryOk;
      var root := NodeView(true, -1, [e], []);
      SingletonFits(kind, e);
      rootId := Alloc(root, 0);
      levels := [Level([rootId], [], [])];
      assert levels == [] + [Level([rootId], [], [])];
      WidthSnoc([], Level([rootId], [], []));
      SingletonTree(kind, nodes, height, rootId, e);
      PageIds();
    }

    /** A leaf with room for one more entry. */
    method GrowLeaf(leafId: int, leaf: NodeView, es: seq<Entry>, ghost i: nat, ghost p: nat, ghost e: Entry)
      requires Valid() && rootId != -1 && i < |levels[0].ids| && leafId == levels[0].ids[i]
      requires leafId in nodes && leaf == nodes[leafId] && p <= |leaf.entries| && es == InsertAt(leaf.entries, p, e)
      requires AllOk(kind, es) && Sorted(es) && forall t :: 0 <= t < |es| ==> Covers(levels[0].bounds, i, es[t])
      requires AllStorable(es) && Measure(es, true) <= PAGE_SIZE
      modifies this`disk, this`nodes
      ensures Valid() && Live() == old(Live()) + {e} && numPages == old(numPages)
      ensures forall p :: p in old(disk) && p !in old(nodes) ==> p in disk && disk[p] == old(disk)[p]
    {
      hide PagesOk, Less, Linked, LeafOk, Covers, Sorted, AllOk, Fits, Heights, LeavesOk, EntryOk, Storable, EntriesSize, InsertAt;
      ghost var nodes0 := nodes;
      LeafFields(kind, nodes, levels[0], i);
      LeavesKnown(kind, nodes, levels[0]);
      PageFits(leafId);
      var v := leaf.(entries := es);
      GrownFits(leaf, es);
      LeavesReplace(kind, nodes, levels[0], i, v);
      Write(leafId, v);
      TreeReplaceLeaf(kind, nodes0, levels, rootId, height, i, v);
      LeavesKnown(kind, nodes, levels[0]);
      forall x ensures x in Live() <==> x in old(Live()) || x == e {
        FlattenInsert(nodes0, levels[0].ids, i, v, p, e, x);
      }
    }

    /** An overfull leaf: its upper half moves to a new right neighbour. */
    method SplitLeaf(leafId: int, leaf: NodeView, es: seq<Entry>, path: seq<int>, ghost pos: seq<nat>, ghost p: nat, ghost e: Entry)
      requires Valid() && rootId != -1 && |levels| == |pos| == |path| + 1
      requires pos[0] < |levels[0].ids| && leafId == levels[0].ids[pos[0]]
      requires forall t :: 0 < t < |levels| ==> Step(levels, path, pos, t)
      requires leafId in nodes && leaf == nodes[leafId] && p <= |leaf.entries| && es == InsertAt(leaf.entries, p, e)
      requires AllOk(kind, es) && Sorted(es) && forall t :: 0 <= t < |es| ==> Covers(levels[0].bounds, pos[0], es[t])
      requires AllStorable(es) && PAGE_SIZE < Measure(es, true) <= PAGE_SIZE + MAX_ENTRY
      requires numPages + |levels| + 1 <= 0x7FFF_FFFF
      modifies this
      ensures Valid() && Live() == old(Live()) + {e}
      ensures |levels| <= old(|levels|) + 1 && LeafCount(levels) == old(LeafCount(levels)) + 1
      ensures numPages - Width(levels) == old(numPages - Width(levels))
      ensures forall p :: p in old(disk) && p !in old(nodes) ==> p in disk && disk[p] == old(disk)[p]
    {
      hide PagesOk, Less, Linked, LeafOk, Covers, Sorted, AllOk, Fits, Heights, EntryOk, Storable, EntriesSize, InsertAt, Step, Pending, LeavesOk, Flatten, Width;
      ghost var nodes0, base, height0, i := nodes, levels, height, pos[0];
      LevelFields(kind, nodes, levels[0]);
      LeafFields(kind, nodes, levels[0], i);
      LeavesKnown(kind, nodes, levels[0]);
      PageFits(leafId);
      PageIds();
      var mid := |es| / 2;
      EsSmall(kind, es);
      LeafSplitFits(es);
      var rightId := numPages;
      HalvesFit(leaf, es, mid, rightId);
      LeavesSplit(kind, nodes, levels[0], i, es, mid, rightId);
      var right := NodeView(true, leaf.nextLeaf, es[mid..], []);
      var left := NodeView(true, rightId, es[..mid], []);
      rightId := WriteHalves(leafId, left, right, 0);
      WidthUpdate(levels, 0, SplitLevel(levels[0], i, rightId, es[mid]));
      levels := levels[0 := SplitLevel(levels[0], i, rightId, es[mid])];
      LeafPending(kind, nodes0, nodes, base, rootId, height0, i, es, mid, rightId);
      LeavesKnown(kind, nodes, levels[0]);
      ghost var run := Flatten(nodes, levels[0].ids);
      forall x ensures x in run <==> x in old(Live()) || x == e {
        FlattenSplit(nodes0, base[0].ids, i, es, mid, rightId, p, e, x);
      }
      Ascend(path, es[mid], rightId, base, pos);
    }

    /** Hands a split node's separator and new right half to its parent, splitting
        parents in turn as long as they overflow. */
    method Ascend(path0: seq<int>, up0: Entry, child0: int, ghost base: seq<Level>, ghost pos: seq<nat>)
      requires PagesOk() && |levels| == |base| == |pos| == |path0| + 1
      requires Pending(kind, nodes, base, levels, rootId, 0, pos[0], child0, up0)
      requires Heights(height, levels)
      requires forall t :: 0 < t < |base| ==> Step(base, path0, pos, t)
      requires numPages + |levels| <= 0x7FFF_FFFF && rootId != -1
      modifies this
      ensures Valid() && rootId != -1
      ensures levels != [] && levels[0] == old(levels[0])
      ensures Known(old(nodes), levels[0].ids) && Known(nodes, levels[0].ids)
      ensures Flatten(nodes, levels[0].ids) == Flatten(old(nodes), levels[0].ids)
      ensures |levels| <= |base| + 1 && numPages - Width(levels) == old(numPages - Width(levels))
      ensures forall p :: p in old(disk) && p !in old(nodes) ==> p in disk && disk[p] == old(disk)[p]
    {
      hide PagesOk, Less, Linked, LeafOk, Covers, Sorted, AllOk, Fits, Heights, LeavesOk, EntryOk, Pending, Step, TreeOk, Width;
      var path, up, child := path0, up0, child0;
      ghost var t, below := 0, base;
      PendingKnown(kind, nodes, below, levels, rootId, t, pos[t], child, up);
      while path != []
        invariant PagesOk() && Heights(height, levels) && rootId == old(rootId)
        invariant |levels| == |below| == |pos| == |path| + 1 + t && t < |levels|
        invariant Pending(kind, nodes, below, levels, rootId, t, pos[t], child, up)
        invariant forall x :: t < x < |below| ==> Step(below, path, pos, x)
        invariant numPages == old(numPages) + t && numPages - Width(levels) == old(numPages - Width(levels))
        invariant levels[0] == old(levels[0]) && SameNodes(old(nodes), nodes, levels[0].ids)
        invariant forall p :: p in old(disk) && p !in old(nodes) ==> p in disk && p !in nodes && disk[p] == old(disk)[p]
        decreases |path|
      {
        ghost var nodes0 := nodes;
        var parentId := path[|path| - 1];
        assert Step(below, path, pos, t + 1);
        StepParent(below, path, pos, t + 1);
        var done; ghost var next;
        done, up, child, next := AdoptChild(parentId, up, child, below, t, pos[t], pos[t + 1]);
        if done {
          FlattenFrame(old(nodes), nodes, levels[0].ids);
          return;
        }
        var popped := path[..|path| - 1];
        forall x | t + 1 < x < |below| ensures Step(next, popped, pos, x) {
          assert Step(below, path, pos, x);
          StepPopped(below, next, path, pos, x);
        }
        path := popped;
        below := next;
        t := t + 1;
      }
      PendingTop(kind, nodes, below, levels, rootId, t, pos[t], child, up);
      PageIds();
      PendingChild(kind, nodes, below, levels, rootId, t, pos[t], child, up);
      var newRoot := NodeView(false, -1, [up], [rootId, child]);
      RootFits(kind, up, rootId, child);
      ghost var nodes0, height0 := nodes, height;
      rootId := Alloc(newRoot, |levels|);
      NewRootTree(kind, nodes0, below, levels, old(rootId), height0, t, pos[t], child, up, rootId);
      WidthSnoc(levels, Level([rootId], [], [0, 2]));
      levels := levels + [Level([rootId], [], [0, 2])];
      FlattenFrame(old(nodes), nodes, levels[0].ids);
    }

    /** One parent takes in a child that split below it: done if the parent still fits its
        page, otherwise the parent itself has split and its own parent is next. */
    method AdoptChild(parentId: int, up: Entry, child: int, ghost base: seq<Level>, ghost t: nat, ghost i: nat, ghost j: nat)
      returns (done: bool, up': Entry, child': int, ghost next: seq<Level>)
      requires PagesOk() && Heights(height, levels) && numPages < 0x7FFF_FFFF
      requires Pending(kind, nodes, base, levels, rootId, t, i, child, up)
      requires |levels| == |base| && t + 1 < |base| && Under(base[t + 1], j, i)
      requires j < |base[t + 1].ids| && parentId == base[t + 1].ids[j]
      modifies this`disk, this`nodes, this`numPages, this`height, this`levels
      ensures PagesOk() && Heights(height, levels)
      ensures |levels| == |base| && levels[0] == old(levels[0]) && SameNodes(old(nodes), nodes, levels[0].ids)
      ensures done ==> TreeOk(kind, nodes, levels, rootId) && numPages == old(numPages)
      ensures numPages - Width(levels) == old(numPages - Width(levels))
      ensures !done ==> numPages == old(numPages) + 1
      ensures !done ==> |next| == |base| && Pending(kind, nodes, next, levels, rootId, t + 1, j, child', up')
      ensures !done ==> next[t + 1].ids == base[t + 1].ids
      ensures !done ==> forall x :: t + 1 < x < |base| ==> next[x] == base[x]
      ensures forall p :: p in old(disk) && p !in old(nodes) ==> p in disk && p !in nodes && disk[p] == old(disk)[p]
    {
      hide PagesOk, Less, Linked, LeafOk, Covers, Sorted, AllOk, Fits, Heights, LeavesOk, EntryOk, Pending, TreeOk, InnerOk, Storable, EntriesSize, Shift, InsertAt, Width;
      done, up', child', next := false, up, child, levels;
      ghost var l := base[t + 1];
      AdoptShape(kind, nodes, base, levels, rootId, t, i, child, up, j);
      var parent := Read(parentId);
      PageFits(parentId);
      PageIds();
      PendingChild(kind, nodes, base, levels, rootId, t, i, child, up);
      var ip := InsertionPoint(parent.entries, up);
      AdoptPoint(kind, nodes, base, levels, rootId, t, i, child, up, j, ip);
      var v := Adopt(parent, ip, child, up);
      GrowSize(kind, parent, up, ip);
      AdoptTree(kind, nodes, base, levels, rootId, height, t, i, child, up, j);
      next := levels[t + 1 := l.(offs := Shift(l.offs, j))];
      PendingLevel(kind, nodes, base, levels, rootId, t, i, child, up);
      WidthUpdate(levels, t + 1, l.(offs := Shift(l.offs, j)));
      ghost var mid0 := nodes[parentId := v];
      PendingKnown(kind, nodes, base, levels, rootId, t, i, child, up);
      HeightsApart(height, levels, t + 1, j);
      if Measure(v.entries, false) <= PAGE_SIZE {
        AdoptFits(parent, ip, child, up);
        Write(parentId, v);
        HeightsSame(height, levels, next);
        levels := next;
        done := true;
        return;
      }
      TreeEntriesOk(kind, mid0, next, rootId, t + 1, j);
      HeightsSame(height, levels, next);
      up', child' := SplitParent(parentId, parent, v, ip, child, up, next, t + 1, j);
      forall x | 0 <= x < |levels[0].ids|
        ensures levels[0].ids[x] in old(nodes) && levels[0].ids[x] in nodes && nodes[levels[0].ids[x]] == old(nodes)[levels[0].ids[x]]
      {
        assert levels[0].ids[x] in old(levels[0].ids);
      }
    }

    /** An overfull inner node: its middle separator moves up, what follows it moves to a new page. */
    method SplitParent(parentId: int, parent: NodeView, v: NodeView, ip: nat, child: int, up: Entry,
                       ghost whole: seq<Level>, ghost t: nat, ghost j: nat)
      returns (up': Entry, child': int)
      requires PagesOk() && numPages < 0x7FFF_FFFF && parentId in nodes && parent == nodes[parentId]
      requires Fits(parent) && !parent.leaf && parent.nextLeaf == -1 && |parent.children| == |parent.entries| + 1
      requires ip <= |parent.entries| && v == Adopt(parent, ip, child, up) && IsInt32(child)
      requires AllOk(kind, v.entries) && AllStorable(v.entries)
      requires PAGE_SIZE < Measure(v.entries, false) <= PAGE_SIZE + MAX_ENTRY + 4
      requires TreeOk(kind, nodes[parentId := v], whole, rootId) && Heights(height, whole)
      requires 0 < t < |whole| && j < |whole[t].ids| && whole[t].ids[j] == parentId
      requires j + 1 < |whole[t].offs| && j <= |whole[t].bounds| && levels != [] && whole[0] == levels[0]
      modifies this`disk, this`nodes, this`numPages, this`height, this`levels
      ensures PagesOk() && Heights(height, levels) && numPages == old(numPages) + 1 && Width(levels) == Width(whole) + 1
      ensures |levels| == |whole| && levels[0] == old(levels[0])
      ensures forall id :: id in old(nodes) && id != parentId ==> id in nodes && nodes[id] == old(nodes)[id]
      ensures Pending(kind, nodes, whole, levels, rootId, t, j, child', up')
      ensures forall p :: p in old(disk) && p !in old(nodes) ==> p in disk && p !in nodes && disk[p] == old(disk)[p]
    {
      hide PagesOk, Less, Sorted, AllOk, Fits, Heights, EntryOk, Pending, TreeOk, Storable, EntriesSize, SplitInnerLevel, LeftPart, RightPart, InsertAt, Width, Branching;
      var m := |v.entries| / 2;
      EsSmall(kind, v.entries);
      InnerSplitFits(v.entries);
      PartsFit(parent, v, ip, child, up, m);
      PartsBranch(v, m);
      ghost var nodes0, height0, id := nodes[parentId := v], height, numPages;
      PageIds();
      NotInLevels(kind, nodes0, whole, rootId, id);
      SplitPending(kind, nodes0, whole, rootId, height, t, j, m, id);
      up' := v.entries[m];
      child' := WriteHalves(parentId, LeftPart(v, m), RightPart(v, m), t);
      assert nodes == nodes0[parentId := LeftPart(v, m)][id := RightPart(v, m)];
      ghost var cut := SplitInnerLevel(whole[t], j, id, up', whole[t].offs[j] + m + 1);
      WidthUpdate(whole, t, cut);
      levels := whole[t := cut];
      CutFields(whole[t], j, id, up', whole[t].offs[j] + m + 1);
      HeightsSplit(height0, whole, t, cut, j, id);
    }
  }

  /** The number of leading separators at or below an entry: the child to descend into. */
  method ChildIndex(view: NodeView, e: Entry) returns (idx: nat)
    ensures idx <= |view.entries|
    ensures 0 < idx ==> !Less(e, view.entries[idx - 1])
    ensures idx < |view.entries| ==> Less(e, view.entries[idx])
  {
    hide Less;
    idx := 0;
    while idx < |view.entries| && !Less(e, view.entries[idx])
      invariant 0 <= idx <= |view.entries|
      invariant 0 < idx ==> !Less(e, view.entries[idx - 1])
    {
      idx := idx + 1;
    }
  }

  /** Whether the entry at an insertion point is the one to insert; otherwise it is larger. */
  method Present(es: seq<Entry>, p: nat, e: Entry, k: Kind) returns (found: bool)
    requires OfKind(k, e.key) && AllOk(k, es) && p <= |es|
    ensures found <==> p < |es| && es[p] == e
    ensures !found && p < |es| && !Less(es[p], e) ==> Less(e, es[p])
  {
    hide Less;
    if p == |es| {
      return false;
    }
    EntryOkKind(k, es[p]);
    SameEntry(k, es[p], e);
    LessTotal(k, es[p], e);
    return KeyEqual(es[p].key, e.key) && es[p].rid == e.rid;
  }

  /** The position of an entry in a leaf, or the leaf's length. */
  method FindInLeaf(leaf: NodeView, e: Entry, k: Kind) returns (i: nat)
    requires OfKind(k, e.key) && AllOk(k, leaf.entries)
    ensures i <= |leaf.entries|
    ensures i < |leaf.entries| ==> leaf.entries[i] == e
    ensures i == |leaf.entries| ==> e !in leaf.entries
  {
    hide Storable;
    i := 0;
    while i < |leaf.entries|
      invariant 0 <= i <= |leaf.entries|
      invariant forall t :: 0 <= t < i ==> leaf.entries[t] != e
    {
      EntryOkKind(k, leaf.entries[i]);
      SameEntry(k, leaf.entries[i], e);
      if KeyEqual(leaf.entries[i].key, e.key) && leaf.entries[i].rid == e.rid {
        return;
      }
      i := i + 1;
    }
  }

  /** Adds a leaf's entries in range to the output; stops at the first one above the upper limit. */
  method ScanLeaf(entries: seq<Entry>, lo: Option<Value>, hi: Option<Value>, found: seq<RecordID>, ghost before: seq<Entry>)
    returns (out: seq<RecordID>, done: bool, ghost at: nat)
    requires found == Scan(before, lo, hi)
    ensures at <= |entries| && out == Scan(before + entries[..at], lo, hi)
    ensures !done ==> at == |entries|
    ensures done ==> at < |entries| && hi.Some? && ValueLess(hi.value, entries[at].key)
  {
    hide InRange, ValueLess;
    out := found;
    done := false;
    at := 0;
    assert before + entries[..0] == before;
    var i := 0;
    while i < |entries|
      invariant 0 <= i == at <= |entries|
      invariant out == Scan(before + entries[..i], lo, hi)
    {
      var e := entries[i];
      assert before + entries[..i + 1] == before + entries[..i] + [e];
      ScanSnoc(before + entries[..i], e, lo, hi);
      RangeTests(e, lo, hi);
      if lo.Some? && ValueLess(e.key, lo.value) {
      } else {
        if hi.Some? && ValueLess(hi.value, e.key) {
          done := true;
          return;
        }
        out := out + [e.rid];
      }
      i := i + 1;
      at := i;
    }
  }

  /** At level t the path stands at a node whose separators cover e. */
  ghost predicate At(levels: seq<Level>, pos: seq<nat>, e: Entry, t: nat) {
    && t < |levels| == |pos|
    && pos[t] < |levels[t].ids| && Covers(levels[t].bounds, pos[t], e)
  }

  /** From level t the path steps down to one of the node's children. */
  ghost predicate Step(levels: seq<Level>, path: seq<int>, pos: seq<nat>, t: nat) {
    && 0 < t < |levels| == |pos|
    && t + |path| >= |levels| && pos[t] < |levels[t].ids|
    && path[|levels| - 1 - t] == levels[t].ids[pos[t]]
    && Under(levels[t], pos[t], pos[t - 1])
  }

  lemma DescendStep(k: Kind, nodes: Nodes, levels: seq<Level>, pos: seq<nat>, e: Entry, t: nat, v: NodeView, idx: nat)
    returns (p: nat)
    requires 0 < t < |levels| && Linked(k, nodes, levels[t], levels[t - 1]) && At(levels, pos, e, t)
    requires levels[t].ids[pos[t]] in nodes && v == nodes[levels[t].ids[pos[t]]]
    requires idx <= |v.entries|
    requires 0 < idx ==> !Less(e, v.entries[idx - 1])
    requires idx < |v.entries| ==> Less(e, v.entries[idx])
    ensures p < |levels[t - 1].ids| && Covers(levels[t - 1].bounds, p, e)
    ensures Under(levels[t], pos[t], p)
    ensures idx < |v.children| && v.children[idx] == levels[t - 1].ids[p]
  {
    hide Less, Linked, Covers;
    Descend(k, nodes, levels[t], levels[t - 1], pos[t], e, v, idx);
    ChildUnder(k, nodes, levels[t], levels[t - 1], pos[t], idx);
    p := levels[t].offs[pos[t]] + idx;
  }

  /** Position p of the level below lies under node j. */
  ghost predicate Under(up: Level, j: nat, p: nat) {
    j + 1 < |up.offs| && up.offs[j] <= p < up.offs[j + 1]
  }

  lemma ChildUnder(k: Kind, nodes: Nodes, up: Level, down: Level, j: nat, idx: nat)
    requires Linked(k, nodes, up, down) && j < |up.ids|
    requires up.ids[j] in nodes && idx < |nodes[up.ids[j]].children|
    ensures j < |up.offs| && Under(up, j, up.offs[j] + idx)
  {
    assert InnerOk(nodes, up, down, j);
  }

  /** The root covers every entry: it has no separators around it. */
  lemma RootCovers(k: Kind, nodes: Nodes, levels: seq<Level>, rootId: int, e: Entry)
    requires TreeOk(k, nodes, levels, rootId)
    ensures Covers(levels[|levels| - 1].bounds, 0, e)
  {
    var t := |levels| - 1;
    assert t > 0 ==> Linked(k, nodes, levels[t], levels[t - 1]);
  }

  /** Level t's nodes are known pages, and exactly those of level 0 are leaves. */
  lemma IdKnown(k: Kind, nodes: Nodes, levels: seq<Level>, rootId: int, t: nat, i: nat)
    requires TreeOk(k, nodes, levels, rootId)
    requires t < |levels| && i < |levels[t].ids|
    ensures levels[t].ids[i] in nodes && (nodes[levels[t].ids[i]].leaf <==> t == 0)
  {
    if t == 0 {
      assert LeafOk(k, nodes, levels[0], i);
    } else {
      assert Linked(k, nodes, levels[t], levels[t - 1]);
      assert InnerOk(nodes, levels[t], levels[t - 1], i);
    }
  }

  /** Stopping at an entry above the upper limit loses nothing. */
  lemma StoppedEarly(k: Kind, nodes: Nodes, l: Level, c: nat, at: nat, lo: Option<Value>, hi: Option<Value>)
    requires LeavesOk(k, nodes, l) && Known(nodes, l.ids) && c < |l.ids|
    requires at < |nodes[l.ids[c]].entries| && hi.Some? && Comparable(k, hi.value)
    requires ValueLess(hi.value, nodes[l.ids[c]].entries[at].key)
    ensures Scan(Flatten(nodes, l.ids[..c]) + nodes[l.ids[c]].entries[..at], lo, hi) == Scan(Flatten(nodes, l.ids), lo, hi)
  {
    hide LeavesOk, ValueLess, OfKind, Comparable, Sorted, AllOk, Scan;
    FlattenAt(nodes, l.ids, c, at);
    assert l.ids[..|l.ids|] == l.ids;
    FlattenSorted(k, nodes, l, |l.ids|);
    ScanStops(k, Flatten(nodes, l.ids), |Flatten(nodes, l.ids[..c])| + at, lo, hi);
  }

  /** What a scan checks of one entry. */
  lemma RangeTests(e: Entry, lo: Option<Value>, hi: Option<Value>)
    ensures InRange(e, lo, hi) <==>
      !(lo.Some? && ValueLess(e.key, lo.value)) && !(hi.Some? && ValueLess(hi.value, e.key))
  {
  }

  lemma LeafFields(k: Kind, nodes: Nodes, l: Level, i: nat)
    requires LeavesOk(k, nodes, l) && i < |l.ids|
    ensures l.ids[i] in nodes && |l.ids| == |l.bounds| + 1
    ensures nodes[l.ids[i]].leaf && nodes[l.ids[i]].nextLeaf == NextId(l.ids, i) && nodes[l.ids[i]].children == []
    ensures AllOk(k, nodes[l.ids[i]].entries) && Sorted(nodes[l.ids[i]].entries)
    ensures forall t :: 0 <= t < |nodes[l.ids[i]].entries| ==>
      EntryOk(k, nodes[l.ids[i]].entries[t]) && Covers(l.bounds, i, nodes[l.ids[i]].entries[t])
  {
    hide Covers, EntryOk, Sorted;
    assert LeafOk(k, nodes, l, i);
  }

  lemma LevelFields(k: Kind, nodes: Nodes, l: Level)
    requires LeavesOk(k, nodes, l)
    ensures |l.ids| == |l.bounds| + 1 && NoDuplicates(l.ids)
  {
  }

  lemma NextKnown(k: Kind, nodes: Nodes, l: Level, c: nat)
    requires LeavesOk(k, nodes, l) && 0 < c <= |l.ids|
    ensures NextId(l.ids, c - 1) == (if c < |l.ids| then l.ids[c] else -1)
    ensures c < |l.ids| ==> l.ids[c] in nodes
  {
    if c < |l.ids| {
      assert LeafOk(k, nodes, l, c);
    }
  }

  /** The leaves left of the one a lower limit descends to hold nothing in range. */
  lemma SkippedLeaves(k: Kind, nodes: Nodes, l: Level, c: nat, lo: Value, hi: Option<Value>)
    requires LeavesOk(k, nodes, l) && Known(nodes, l.ids) && c < |l.ids| && Comparable(k, lo)
    requires Covers(l.bounds, c, Entry(lo, MIN_RID))
    ensures Scan(Flatten(nodes, l.ids[..c]), Some(lo), hi) == []
  {
    hide Less, EntryOk, OfKind, Comparable, InRange;
    FlattenSorted(k, nodes, l, c);
    var es := Flatten(nodes, l.ids[..c]);
    if c > 0 {
      forall x | 0 <= x < |es| ensures !InRange(es[x], Some(lo), hi) {
        BelowRange(k, es[x], lo, hi, l.bounds[c - 1]);
      }
    }
    ScanNone(es, Some(lo), hi);
  }

  /** A leaf's i-th entry, found in the run of all leaves. */
  lemma {:induction false} FlattenAt(nodes: Nodes, ids: seq<int>, c: nat, i: nat)
    requires Known(nodes, ids) && c < |ids| && i < |nodes[ids[c]].entries|
    ensures var before := Flatten(nodes, ids[..c]);
      && |before| + i < |Flatten(nodes, ids)|
      && Flatten(nodes, ids)[|before| + i] == nodes[ids[c]].entries[i]
      && Flatten(nodes, ids)[..|before| + i] == before + nodes[ids[c]].entries[..i]
    decreases |ids|
  {
    var n := |ids| - 1;
    if c < n {
      assert ids[..n][..c] == ids[..c];
      FlattenAt(nodes, ids[..n], c, i);
      var before := Flatten(nodes, ids[..c]);
      assert Flatten(nodes, ids)[..|before| + i] == Flatten(nodes, ids[..n])[..|before| + i];
    }
  }

  lemma SameEntry(k: Kind, a: Entry, b: Entry)
    requires OfKind(k, a.key) && OfKind(k, b.key)
    ensures KeyEqual(a.key, b.key) && a.rid == b.rid <==> a == b
  {
    ValueLessTotal(k, a.key, b.key);
  }

  /** Dropping one entry of a leaf keeps the leaf in order. */
  lemma LeafErase(k: Kind, nodes: Nodes, l: Level, i: nat, p: nat)
    requires LeavesOk(k, nodes, l) && i < |l.ids| && l.ids[i] in nodes
    requires p < |nodes[l.ids[i]].entries|
    ensures var v := nodes[l.ids[i]];
      LeavesOk(k, nodes[l.ids[i] := v.(entries := v.entries[..p] + v.entries[p + 1..])], l)
  {
    hide Less, Covers, EntryOk;
    LeafFields(k, nodes, l, i);
    var v := nodes[l.ids[i]];
    LeavesReplace(k, nodes, l, i, v.(entries := v.entries[..p] + v.entries[p + 1..]));
  }

  lemma RemoveFits(v: NodeView, p: nat)
    requires Fits(v) && v.leaf && p < |v.entries|
    ensures Fits(v.(entries := v.entries[..p] + v.entries[p + 1..]))
  {
    hide EntrySize, Storable, EntriesSize;
    var a, z := v.entries[..p], v.entries[p + 1..];
    assert v.entries == a + [v.entries[p]] + z;
    assert AllStorable(a) && AllStorable(z) && AllStorable([v.entries[p]]);
    EntriesSizeConcat(a, [v.entries[p]]);
    EntriesSizeConcat(a + [v.entries[p]], z);
    EntriesSizeConcat(a, z);
  }

  /** Writing a leaf leaves the levels above as they are. */
  lemma TreeReplaceLeaf(k: Kind, nodes: Nodes, levels: seq<Level>, rootId: int, height: map<int, nat>, i: nat, v: NodeView)
    requires TreeOk(k, nodes, levels, rootId) && Heights(height, levels)
    requires i < |levels[0].ids| && LeavesOk(k, nodes[levels[0].ids[i] := v], levels[0])
    ensures TreeOk(k, nodes[levels[0].ids[i] := v], levels, rootId)
  {
    hide Linked, LeavesOk;
    forall t | 0 < t < |levels| ensures Linked(k, nodes[levels[0].ids[i] := v], levels[t], levels[t - 1]) {
      assert forall j :: 0 <= j < |levels[t].ids| ==> height[levels[t].ids[j]] == t;
      assert height[levels[0].ids[i]] == 0;
      LinkedFrame(k, nodes, nodes[levels[0].ids[i] := v], levels[t], levels[t - 1]);
    }
  }

  /** No entry is covered at two positions. */
  lemma CoverApart(k: Kind, bounds: seq<Entry>, i: nat, j: nat, e: Entry)
    requires AllOk(k, bounds) && Sorted(bounds) && OfKind(k, e.key)
    requires i <= |bounds| && j <= |bounds| && j != i && Covers(bounds, i, e)
    ensures !Covers(bounds, j, e)
  {
    hide Less, AllOk, Sorted, OfKind;
    if j < i {
      CoversAllLeft(k, bounds, i, e, j);
    } else {
      CoversAllRight(k, bounds, i, e, j - 1);
    }
  }

  /** Separators tell leaves apart: an entry can be in no leaf but the one that covers it. */
  lemma OnlyAt(k: Kind, nodes: Nodes, l: Level, i: nat, e: Entry)
    requires LeavesOk(k, nodes, l) && Known(nodes, l.ids) && i < |l.ids| && OfKind(k, e.key)
    requires Covers(l.bounds, i, e)
    ensures e in Flatten(nodes, l.ids) <==> e in nodes[l.ids[i]].entries
    ensures forall j :: 0 <= j < |l.ids| && j != i ==> e !in nodes[l.ids[j]].entries
  {
    hide Less, Flatten, LeafOk, OfKind, EntryOk, Covers, Sorted;
    forall j | 0 <= j < |l.ids| && j != i ensures e !in nodes[l.ids[j]].entries {
      LeafFields(k, nodes, l, j);
      CoverApart(k, l.bounds, i, j, e);
    }
    FlattenHas(nodes, l.ids, e);
  }

  lemma FlattenErase(k: Kind, nodes: Nodes, l: Level, i: nat, v: NodeView, p: nat, e: Entry, x: Entry)
    requires LeavesOk(k, nodes, l) && Known(nodes, l.ids) && i < |l.ids|
    requires p < |nodes[l.ids[i]].entries| && nodes[l.ids[i]].entries[p] == e
    requires v.entries == nodes[l.ids[i]].entries[..p] + nodes[l.ids[i]].entries[p + 1..]
    ensures x in Flatten(nodes[l.ids[i] := v], l.ids) <==> x in Flatten(nodes, l.ids) && x != e
  {
    hide Less, EntryOk;
    LeafFields(k, nodes, l, i);
    var es := nodes[l.ids[i]].entries;
    EntryOkKind(k, e);
    LessTotal(k, e, e);
    assert e !in v.entries;
    assert x in es <==> x in v.entries || x == e by {
      assert es == es[..p] + [e] + es[p + 1..];
    }
    OnlyAt(k, nodes, l, i, e);
    FlattenHas(nodes, l.ids, x);
    FlattenHas(nodes[l.ids[i] := v], l.ids, x);
  }

  // ----- Insertion into one node

  /** The number of leading entries below e. */
  method InsertionPoint(es: seq<Entry>, e: Entry) returns (p: nat)
    ensures p <= |es|
    ensures 0 < p ==> Less(es[p - 1], e)
    ensures p < |es| ==> !Less(es[p], e)
  {
    hide Less;
    p := 0;
    while p < |es| && Less(es[p], e)
      invariant 0 <= p <= |es|
      invariant 0 < p ==> Less(es[p - 1], e)
    {
      p := p + 1;
    }
  }

  lemma EsSmall(k: Kind, es: seq<Entry>)
    requires AllOk(k, es)
    ensures SmallEntries(es)
  {
  }

  /** A leaf with one more entry at its place: sorted and still within its separators. */
  lemma GrownLeaf(k: Kind, es: seq<Entry>, e: Entry, p: nat, bounds: seq<Entry>, i: nat)
    requires AllOk(k, es) && Sorted(es) && EntryOk(k, e) && p <= |es|
    requires forall t :: 0 <= t < p ==> Less(es[t], e)
    requires forall t :: p <= t < |es| ==> !Less(es[t], e)
    requires p < |es| ==> es[p] != e
    requires Covers(bounds, i, e) && forall t :: 0 <= t < |es| ==> Covers(bounds, i, es[t])
    ensures Sorted(InsertAt(es, p, e)) && AllOk(k, InsertAt(es, p, e))
    ensures forall t :: 0 <= t <= |es| ==> Covers(bounds, i, InsertAt(es, p, e)[t])
  {
    hide Less, Covers, EntryOk;
    forall t | p <= t < |es| ensures Less(e, es[t]) {
      EntryOkKind(k, es[t]);
      EntryOkKind(k, e);
      LessTotal(k, es[t], e);
      if p < t {
        assert Less(es[p], es[t]);
      }
    }
    SortedInsert(k, es, e, p);
  }

  lemma GrowSize(k: Kind, v: NodeView, e: Entry, p: nat)
    requires AllStorable(v.entries) && EntryOk(k, e) && p <= |v.entries|
    ensures AllStorable(InsertAt(v.entries, p, e))
    ensures EntriesSize(InsertAt(v.entries, p, e)) == EntriesSize(v.entries) + EntrySize(e)
    ensures EntrySize(e) <= MAX_ENTRY
  {
    hide Storable, EntrySize, EntriesSize;
    var a, z := v.entries[..p], v.entries[p..];
    assert v.entries == a + z;
    assert AllStorable([e]);
    EntriesSizeConcat(a, [e]);
    EntriesSizeConcat(a + [e], z);
    EntriesSizeConcat(a, z);
    SingleSize(e);
  }

  lemma SingleSize(e: Entry)
    requires Storable(e)
    ensures AllStorable([e]) && EntriesSize([e]) == EntrySize(e)
  {
    assert [e][..0] == [];
  }

  lemma SingletonFits(k: Kind, e: Entry)
    requires EntryOk(k, e)
    ensures Fits(NodeView(true, -1, [e], []))
  {
    SingleSize(e);
  }

  lemma SingletonTree(k: Kind, nodes: Nodes, height: map<int, nat>, id: int, e: Entry)
    requires EntryOk(k, e) && id in nodes && nodes[id] == NodeView(true, -1, [e], [])
    requires id in height && height[id] == 0
    ensures TreeOk(k, nodes, [Level([id], [], [])], id) && Heights(height, [Level([id], [], [])])
    ensures Flatten(nodes, [id]) == [e]
  {
    hide EntryOk;
    var l := Level([id], [], []);
    assert LeafOk(k, nodes, l, 0);
    assert [id][..0] == [];
    assert Flatten(nodes, [id]) == Flatten(nodes, []) + [e];
  }

  lemma GrownFits(v: NodeView, es: seq<Entry>)
    requires Fits(v) && v.leaf && AllStorable(es) && Measure(es, true) <= PAGE_SIZE
    ensures Fits(v.(entries := es))
  {
  }

  lemma HalvesFit(v: NodeView, es: seq<Entry>, mid: nat, rightId: int)
    requires Fits(v) && v.leaf && IsInt32(rightId) && mid <= |es|
    requires AllStorable(es[..mid]) && Measure(es[..mid], true) <= PAGE_SIZE
    requires AllStorable(es[mid..]) && Measure(es[mid..], true) <= PAGE_SIZE
    ensures Fits(NodeView(true, v.nextLeaf, es[mid..], [])) && Fits(NodeView(true, rightId, es[..mid], []))
  {
  }

  lemma RootFits(k: Kind, up: Entry, a: int, b: int)
    requires EntryOk(k, up) && IsInt32(a) && IsInt32(b)
    ensures Fits(NodeView(false, -1, [up], [a, b]))
  {
    SingleSize(up);
  }

  lemma AdoptFits(v: NodeView, ip: nat, child: int, up: Entry)
    requires Fits(v) && !v.leaf && ip <= |v.entries| && IsInt32(child)
    requires AllStorable(InsertAt(v.entries, ip, up))
    requires Measure(InsertAt(v.entries, ip, up), false) <= PAGE_SIZE
    ensures Fits(Adopt(v, ip, child, up))
  {
    hide Storable, EntriesSize;
  }

  lemma PartsFit(parent: NodeView, v: NodeView, ip: nat, child: int, up: Entry, m: nat)
    requires Fits(parent) && !parent.leaf && parent.nextLeaf == -1 && ip <= |parent.entries| && IsInt32(child)
    requires v == Adopt(parent, ip, child, up) && m + 1 < |v.entries|
    requires AllStorable(v.entries[..m]) && Measure(v.entries[..m], false) <= PAGE_SIZE
    requires AllStorable(v.entries[m + 1..]) && Measure(v.entries[m + 1..], false) <= PAGE_SIZE
    ensures Fits(LeftPart(v, m)) && Fits(RightPart(v, m))
  {
    hide Storable, EntriesSize;
    assert forall i :: 0 <= i < |v.children| ==> IsInt32(v.children[i]);
  }

  lemma PartsBranch(v: NodeView, m: nat)
    requires 0 < m && m + 1 < |v.entries| && m + 1 <= |v.children|
    ensures Branching(LeftPart(v, m)) && Branching(RightPart(v, m))
  {
  }

  // ----- The live entries after an insertion

  lemma FlattenInsert(nodes: Nodes, ids: seq<int>, i: nat, v: NodeView, p: nat, e: Entry, x: Entry)
    requires Known(nodes, ids) && i < |ids| && p <= |nodes[ids[i]].entries|
    requires v.entries == InsertAt(nodes[ids[i]].entries, p, e)
    ensures x in Flatten(nodes[ids[i] := v], ids) <==> x in Flatten(nodes, ids) || x == e
  {
    InsertHas(nodes[ids[i]].entries, p, e, x);
    FlattenHas(nodes, ids, x);
    FlattenHas(nodes[ids[i] := v], ids, x);
  }

  lemma InsertHas<T>(s: seq<T>, p: nat, e: T, x: T)
    requires p <= |s|
    ensures x in InsertAt(s, p, e) <==> x in s || x == e
  {
    assert s == s[..p] + s[p..];
  }

  lemma FlattenSplit(nodes: Nodes, ids: seq<int>, i: nat, es: seq<Entry>, mid: nat, rightId: int, p: nat, e: Entry, x: Entry)
    requires Known(nodes, ids) && NoDuplicates(ids) && i < |ids| && p <= |nodes[ids[i]].entries|
    requires es == InsertAt(nodes[ids[i]].entries, p, e) && mid <= |es| && rightId !in nodes
    ensures var left := NodeView(true, rightId, es[..mid], []);
      var right := NodeView(true, nodes[ids[i]].nextLeaf, es[mid..], []);
      var nodes' := nodes[ids[i] := left][rightId := right];
      && Known(nodes', InsertAt(ids, i + 1, rightId))
      && (x in Flatten(nodes', InsertAt(ids, i + 1, rightId)) <==> x in Flatten(nodes, ids) || x == e)
  {
    var left := NodeView(true, rightId, es[..mid], []);
    var right := NodeView(true, nodes[ids[i]].nextLeaf, es[mid..], []);
    var nodes' := nodes[ids[i] := left][rightId := right];
    var ids' := InsertAt(ids, i + 1, rightId);
    forall t | 0 <= t < |ids'| ensures ids'[t] in nodes' {
      InsertIndex(ids, i + 1, rightId, t);
    }
    InsertHas(nodes[ids[i]].entries, p, e, x);
    assert es == es[..mid] + es[mid..];
    assert x in es <==> x in left.entries || x in right.entries;
    FlattenHas(nodes, ids, x);
    FlattenHas(nodes', ids', x);
    SplitMembers(nodes, ids, i, left, right, rightId, x);
  }

  lemma SplitMembers(nodes: Nodes, ids: seq<int>, i: nat, left: NodeView, right: NodeView, rightId: int, x: Entry)
    requires Known(nodes, ids) && NoDuplicates(ids) && i < |ids| && rightId !in nodes
    ensures var nodes' := nodes[ids[i] := left][rightId := right];
      var ids' := InsertAt(ids, i + 1, rightId);
      && Known(nodes', ids')
      && ((exists t :: 0 <= t < |ids'| && x in nodes'[ids'[t]].entries) <==>
          (x in left.entries || x in right.entries || exists t :: 0 <= t < |ids| && t != i && x in nodes[ids[t]].entries))
  {
    var nodes' := nodes[ids[i] := left][rightId := right];
    var ids' := InsertAt(ids, i + 1, rightId);
    assert ids'[i] == ids[i] && ids'[i + 1] == rightId;
    forall t | 0 <= t < |ids'| ensures ids'[t] in nodes' {
      InsertIndex(ids, i + 1, rightId, t);
    }
    forall t | 0 <= t < |ids| && t != i && x in nodes[ids[t]].entries
      ensures exists u :: 0 <= u < |ids'| && x in nodes'[ids'[u]].entries
    {
      var u := if t < i then t else t + 1;
      assert ids'[u] == ids[t];
    }
    forall u | 0 <= u < |ids'| && x in nodes'[ids'[u]].entries
      ensures x in left.entries || x in right.entries || exists t :: 0 <= t < |ids| && t != i && x in nodes[ids[t]].entries
    {
      if u < i {
        assert ids'[u] == ids[u];
      } else if i + 1 < u {
        assert ids'[u] == ids[u - 1];
      }
    }
  }

  /** The nodes of these ids are known and unchanged. */
  ghost predicate SameNodes(nodes: Nodes, nodes': Nodes, ids: seq<int>) {
    forall i :: 0 <= i < |ids| ==> ids[i] in nodes && ids[i] in nodes' && nodes'[ids[i]] == nodes[ids[i]]
  }

  // ----- The levels during an insertion

  lemma NotInLevels(k: Kind, nodes: Nodes, levels: seq<Level>, rootId: int, id: int)
    requires TreeOk(k, nodes, levels, rootId) && id !in nodes
    ensures forall t, i :: 0 <= t < |levels| && 0 <= i < |levels[t].ids| ==> levels[t].ids[i] != id
  {
    hide LeavesOk, Linked;
    forall t, i | 0 <= t < |levels| && 0 <= i < |levels[t].ids| ensures levels[t].ids[i] != id {
      IdKnown(k, nodes, levels, rootId, t, i);
    }
  }

  lemma LeafPending(k: Kind, nodes: Nodes, nodes': Nodes, base: seq<Level>, rootId: int, height: map<int, nat>,
                    i: nat, es: seq<Entry>, mid: nat, rightId: int)
    requires TreeOk(k, nodes, base, rootId) && Heights(height, base)
    requires i < |base[0].ids| && i <= |base[0].bounds| && mid < |es| && rightId !in nodes
    requires nodes'.Keys == nodes.Keys + {rightId}
    requires forall id :: id in nodes && id != base[0].ids[i] ==> nodes'[id] == nodes[id]
    requires LeavesOk(k, nodes', SplitLevel(base[0], i, rightId, es[mid]))
    ensures Pending(k, nodes', base, base[0 := SplitLevel(base[0], i, rightId, es[mid])], rootId, 0, i, rightId, es[mid])
    ensures Heights(height[rightId := 0], base[0 := SplitLevel(base[0], i, rightId, es[mid])])
  {
    hide Linked, LeafOk, Sorted, AllOk, NoDuplicates;
    NotInLevels(k, nodes, base, rootId, rightId);
    forall x | 0 < x < |base| ensures Linked(k, nodes', base[x], base[x - 1]) {
      forall j | 0 <= j < |base[x].ids| && base[x].ids[j] in nodes ensures nodes'[base[x].ids[j]] == nodes[base[x].ids[j]] {
        assert height[base[x].ids[j]] == x && height[base[0].ids[i]] == 0;
      }
      LinkedFrame(k, nodes, nodes', base[x], base[x - 1]);
    }
    HeightsSplit(height, base, 0, SplitLevel(base[0], i, rightId, es[mid]), i, rightId);
  }

  /** A level that gains the id of a new page of the same height. */
  lemma HeightsSplit(height: map<int, nat>, levels: seq<Level>, t: nat, l: Level, i: nat, id: int)
    requires Heights(height, levels) && t < |levels| && i < |levels[t].ids|
    requires l.ids == InsertAt(levels[t].ids, i + 1, id)
    requires forall x, y :: 0 <= x < |levels| && 0 <= y < |levels[x].ids| ==> levels[x].ids[y] != id
    ensures Heights(height[id := t], levels[t := l])
  {
    var levels' := levels[t := l];
    forall x, y | 0 <= x < |levels'| && 0 <= y < |levels'[x].ids|
      ensures levels'[x].ids[y] in height[id := t] && height[id := t][levels'[x].ids[y]] == x
    {
      if x == t {
        InsertIndex(levels[t].ids, i + 1, id, y);
      }
    }
  }

  /** A node of a higher level is none of the leaves. */
  lemma HeightsApart(height: map<int, nat>, levels: seq<Level>, t: nat, j: nat)
    requires Heights(height, levels) && 0 < t < |levels| && j < |levels[t].ids|
    ensures levels[t].ids[j] !in levels[0].ids
  {
    forall y | 0 <= y < |levels[0].ids| ensures levels[0].ids[y] != levels[t].ids[j] {
      assert height[levels[0].ids[y]] == 0 && height[levels[t].ids[j]] == t;
    }
  }

  lemma HeightsSame(height: map<int, nat>, levels: seq<Level>, levels': seq<Level>)
    requires Heights(height, levels) && |levels'| == |levels|
    requires forall x :: 0 <= x < |levels| ==> levels'[x].ids == levels[x].ids
    ensures Heights(height, levels')
  {
    forall x, y | 0 <= x < |levels'| && 0 <= y < |levels'[x].ids|
      ensures levels'[x].ids[y] in height && height[levels'[x].ids[y]] == x
    {
      assert levels'[x].ids[y] == levels[x].ids[y];
    }
  }

  lemma StepParent(levels: seq<Level>, path: seq<int>, pos: seq<nat>, t: nat)
    requires Step(levels, path, pos, t)
    ensures 0 < t < |levels| == |pos| && 0 <= |levels| - 1 - t < |path|
    ensures pos[t] < |levels[t].ids| && path[|levels| - 1 - t] == levels[t].ids[pos[t]]
    ensures Under(levels[t], pos[t], pos[t - 1])
  {
  }

  lemma StepPopped(levels: seq<Level>, next: seq<Level>, path: seq<int>, pos: seq<nat>, t: nat)
    requires Step(levels, path, pos, t) && |next| == |levels| && next[t] == levels[t]
    requires |levels| - 1 - t < |path| - 1
    ensures Step(next, path[..|path| - 1], pos, t)
  {
  }

  lemma PendingKnown(k: Kind, nodes: Nodes, base: seq<Level>, cur: seq<Level>, rootId: int, t: nat, i: nat, child: int, b: Entry)
    requires Pending(k, nodes, base, cur, rootId, t, i, child, b)
    ensures cur != [] && SameNodes(nodes, nodes, cur[0].ids)
  {
    hide LeavesOk, Linked;
    LeavesKnown(k, nodes, cur[0]);
  }

  lemma PendingChild(k: Kind, nodes: Nodes, base: seq<Level>, cur: seq<Level>, rootId: int, t: nat, i: nat, child: int, b: Entry)
    requires Pending(k, nodes, base, cur, rootId, t, i, child, b)
    ensures child in nodes && EntryOk(k, b)
  {
    hide EntryOk, Less, LeavesOk, Linked;
    assert LevelOk(k, base[t]) && LevelOk(k, cur[t]);
    assert cur[t].ids[i + 1] == child && cur[t].bounds[i] == b;
    if t == 0 {
      LeavesKnown(k, nodes, cur[0]);
    } else {
      LinkedKnown(k, nodes, cur[t], cur[t - 1]);
    }
  }

  lemma PendingTop(k: Kind, nodes: Nodes, base: seq<Level>, cur: seq<Level>, rootId: int, t: nat, i: nat, child: int, b: Entry)
    requires Pending(k, nodes, base, cur, rootId, t, i, child, b) && t + 1 == |base|
    ensures i == 0 && cur[t].ids == [rootId, child] && cur[t].bounds == [b] && rootId in nodes
  {
    hide EntryOk, Less, LeavesOk, Linked;
    assert LevelOk(k, base[t]);
    assert base[t].bounds == [];
    assert cur[t].ids[0] == rootId;
    if t == 0 {
      LeavesKnown(k, nodes, cur[0]);
    } else {
      LinkedKnown(k, nodes, cur[t], cur[t - 1]);
    }
  }

  lemma NewRootTree(k: Kind, nodes: Nodes, base: seq<Level>, cur: seq<Level>, rootId: int, height: map<int, nat>,
                    t: nat, i: nat, child: int, b: Entry, id: int)
    requires Pending(k, nodes, base, cur, rootId, t, i, child, b) && t + 1 == |base|
    requires Heights(height, cur) && id !in nodes
    ensures var nodes' := nodes[id := NodeView(false, -1, [b], [rootId, child])];
      var levels := cur + [Level([id], [], [0, 2])];
      && TreeOk(k, nodes', levels, id) && Heights(height[id := |cur|], levels)
      && SameNodes(nodes, nodes', cur[0].ids)
  {
    hide EntryOk, Less, LeavesOk, Linked, LevelOk;
    PendingTop(k, nodes, base, cur, rootId, t, i, child, b);
    var nodes' := nodes[id := NodeView(false, -1, [b], [rootId, child])];
    var top := Level([id], [], [0, 2]);
    var levels := cur + [top];
    LeavesKnown(k, nodes, cur[0]);
    LeavesFrame(k, nodes, nodes', cur[0]);
    forall x | 0 < x < |levels| ensures Linked(k, nodes', levels[x], levels[x - 1]) {
      if x < |cur| {
        LinkedKnown(k, nodes, cur[x], cur[x - 1]);
        LinkedFrame(k, nodes, nodes', cur[x], cur[x - 1]);
      } else {
        TopLinked(k, nodes', cur[t], id, b, rootId, child);
      }
    }
    forall x, y | 0 <= x < |levels| && 0 <= y < |levels[x].ids|
      ensures levels[x].ids[y] in height[id := |cur|] && height[id := |cur|][levels[x].ids[y]] == x
    {
      if x < |cur| {
        PendingIds(k, nodes, base, cur, rootId, t, i, child, b, x, y);
      }
    }
  }

  lemma PendingIds(k: Kind, nodes: Nodes, base: seq<Level>, cur: seq<Level>, rootId: int, t: nat, i: nat, child: int, b: Entry, x: nat, y: nat)
    requires Pending(k, nodes, base, cur, rootId, t, i, child, b) && t + 1 == |base|
    requires x < |cur| && y < |cur[x].ids|
    ensures cur[x].ids[y] in nodes
  {
    hide LeavesOk, Linked, LevelOk;
    if x == 0 {
      LeavesKnown(k, nodes, cur[0]);
    } else {
      LinkedKnown(k, nodes, cur[x], cur[x - 1]);
    }
  }

  lemma TopLinked(k: Kind, nodes: Nodes, down: Level, id: int, b: Entry, left: int, right: int)
    requires LevelOk(k, down) && down.ids == [left, right] && down.bounds == [b]
    requires id in nodes && nodes[id] == NodeView(false, -1, [b], [left, right])
    ensures Linked(k, nodes, Level([id], [], [0, 2]), down)
  {
    var top := Level([id], [], [0, 2]);
    assert OffsOk(top.offs, 1, 2);
    assert InnerOk(nodes, top, down, 0);
  }

  // ----- A parent taking in a child

  lemma AdoptShape(k: Kind, nodes: Nodes, base: seq<Level>, cur: seq<Level>, rootId: int, t: nat, i: nat, child: int, b: Entry, j: nat)
    requires Pending(k, nodes, base, cur, rootId, t, i, child, b)
    requires t + 1 < |base| && j < |base[t + 1].ids| && Under(base[t + 1], j, i)
    ensures |cur| == |base| && forall x :: t < x < |base| ==> cur[x] == base[x]
    ensures Linked(k, nodes, base[t + 1], base[t])
    ensures base[t + 1].ids[j] in nodes && |base[t + 1].offs| == |base[t + 1].ids| + 1
    ensures !nodes[base[t + 1].ids[j]].leaf && nodes[base[t + 1].ids[j]].nextLeaf == -1
    ensures |nodes[base[t + 1].ids[j]].children| == |nodes[base[t + 1].ids[j]].entries| + 1
    ensures 0 <= i - base[t + 1].offs[j] < |nodes[base[t + 1].ids[j]].children|
    ensures |base[t + 1].ids| == |base[t + 1].bounds| + 1
  {
    hide LeavesOk, Sorted, AllOk, NoDuplicates;
    assert InnerOk(nodes, base[t + 1], base[t], j);
  }

  /** The separator's place in the parent is the split child's place among its siblings. */
  lemma AdoptPoint(k: Kind, nodes: Nodes, base: seq<Level>, cur: seq<Level>, rootId: int, t: nat, i: nat, child: int, b: Entry, j: nat, ip: nat)
    requires Pending(k, nodes, base, cur, rootId, t, i, child, b)
    requires t + 1 < |base| && j < |base[t + 1].ids| && Under(base[t + 1], j, i)
    requires base[t + 1].ids[j] in nodes && ip <= |nodes[base[t + 1].ids[j]].entries|
    requires 0 < ip ==> Less(nodes[base[t + 1].ids[j]].entries[ip - 1], b)
    requires ip < |nodes[base[t + 1].ids[j]].entries| ==> !Less(nodes[base[t + 1].ids[j]].entries[ip], b)
    ensures ip == i - base[t + 1].offs[j]
  {
    hide LeavesOk, Less, EntryOk, NoDuplicates, Linked, InnerOk, Pending;
    AdoptOrder(k, nodes, base, cur, rootId, t, i, child, b, j);
  }

  /** The parent's separators left of the split child are below the new one, the others are not. */
  lemma AdoptOrder(k: Kind, nodes: Nodes, base: seq<Level>, cur: seq<Level>, rootId: int, t: nat, i: nat, child: int, b: Entry, j: nat)
    requires Pending(k, nodes, base, cur, rootId, t, i, child, b)
    requires t + 1 < |base| && j < |base[t + 1].ids| && Under(base[t + 1], j, i)
    requires base[t + 1].ids[j] in nodes
    ensures var es := nodes[base[t + 1].ids[j]].entries; var at := i - base[t + 1].offs[j];
      && 0 <= at <= |es|
      && (forall x :: 0 <= x < at ==> Less(es[x], b))
      && (forall x :: at <= x < |es| ==> !Less(es[x], b))
  {
    hide LeavesOk, Less, EntryOk, NoDuplicates;
    assert Linked(k, nodes, base[t + 1], base[t]);
    assert InnerOk(nodes, base[t + 1], base[t], j);
    var es := nodes[base[t + 1].ids[j]].entries;
    var lo := base[t + 1].offs[j];
    var bs := cur[t].bounds;
    assert LevelOk(k, cur[t]);
    forall x | 0 <= x < |es| && lo + x < i ensures Less(es[x], b) {
      assert es[x] == base[t].bounds[lo + x] == bs[lo + x];
      assert Less(bs[lo + x], bs[i]);
    }
    forall x | 0 <= x < |es| && i <= lo + x ensures !Less(es[x], b) {
      assert es[x] == base[t].bounds[lo + x] == bs[lo + x + 1];
      assert Less(bs[i], bs[lo + x + 1]);
      EntryOkKind(k, bs[i]); EntryOkKind(k, bs[lo + x + 1]);
      LessTotal(k, bs[i], bs[lo + x + 1]);
    }
  }

  /** Once the parent has taken the child in, the tree is whole again. */
  lemma AdoptTree(k: Kind, nodes: Nodes, base: seq<Level>, cur: seq<Level>, rootId: int, height: map<int, nat>,
                  t: nat, i: nat, child: int, b: Entry, j: nat)
    requires Pending(k, nodes, base, cur, rootId, t, i, child, b) && Heights(height, cur)
    requires t + 1 < |base| && j < |base[t + 1].ids| && Under(base[t + 1], j, i)
    requires base[t + 1].ids[j] in nodes
    requires 0 <= i - base[t + 1].offs[j] < |nodes[base[t + 1].ids[j]].children|
    requires |nodes[base[t + 1].ids[j]].children| == |nodes[base[t + 1].ids[j]].entries| + 1
    ensures var id := base[t + 1].ids[j]; var up := base[t + 1];
      TreeOk(k, nodes[id := Adopt(nodes[id], i - up.offs[j], child, b)], cur[t + 1 := up.(offs := Shift(up.offs, j))], rootId)
  {
    hide LeavesOk, Less, Linked, Sorted, AllOk, NoDuplicates, Shift;
    var id, up := base[t + 1].ids[j], base[t + 1];
    var nodes' := nodes[id := Adopt(nodes[id], i - up.offs[j], child, b)];
    var up' := up.(offs := Shift(up.offs, j));
    var cur' := cur[t + 1 := up'];
    assert cur[t + 1].ids[j] == id && height[id] == t + 1;
    forall x, y | 0 <= x < |cur| && x != t + 1 && 0 <= y < |cur[x].ids| ensures cur[x].ids[y] != id {
      assert height[cur[x].ids[y]] == x;
    }
    LeavesFrame(k, nodes, nodes', cur[0]);
    forall x | 0 < x < |cur'| ensures Linked(k, nodes', cur'[x], cur'[x - 1]) {
      if x <= t {
        LinkedFrame(k, nodes, nodes', cur[x], cur[x - 1]);
      } else if x == t + 1 {
        assert Linked(k, nodes, base[x], base[x - 1]);
        SplitLevelOk(k, base[t], cur[t], i, child, b);
        LinkedAdopt(k, nodes, up, base[t], j, i, child, b);
        LinkedBelow(k, nodes', up', SplitLevel(base[t], i, child, b), cur[t]);
      } else {
        assert Linked(k, nodes, base[x], base[x - 1]) && cur[x] == base[x];
        LinkedFrame(k, nodes, nodes', base[x], base[x - 1]);
        LinkedBelow(k, nodes', base[x], base[x - 1], cur'[x - 1]);
      }
    }
  }

  lemma SplitLevelOk(k: Kind, l: Level, l': Level, i: nat, child: int, b: Entry)
    requires LevelOk(k, l) && LevelOk(k, l') && i < |l.ids| && i <= |l.bounds|
    requires l'.ids == InsertAt(l.ids, i + 1, child) && l'.bounds == InsertAt(l.bounds, i, b)
    ensures LevelOk(k, SplitLevel(l, i, child, b))
  {
  }

  lemma TreeEntriesOk(k: Kind, nodes: Nodes, levels: seq<Level>, rootId: int, t: nat, j: nat)
    requires TreeOk(k, nodes, levels, rootId) && 0 < t < |levels| && j < |levels[t].ids|
    ensures levels[t].ids[j] in nodes && AllOk(k, nodes[levels[t].ids[j]].entries)
  {
    hide LeavesOk, Less, EntryOk, NoDuplicates, Sorted;
    assert Linked(k, nodes, levels[t], levels[t - 1]);
    assert InnerOk(nodes, levels[t], levels[t - 1], j);
  }

  /** A whole tree in which an inner node splits: its parent's turn is next. */
  lemma SplitPending(k: Kind, nodes: Nodes, levels: seq<Level>, rootId: int, height: map<int, nat>,
                     t: nat, j: nat, m: nat, rightId: int)
    requires TreeOk(k, nodes, levels, rootId) && Heights(height, levels)
    requires 0 < t < |levels| && j < |levels[t].ids| && levels[t].ids[j] in nodes && rightId !in nodes
    requires m + 1 < |nodes[levels[t].ids[j]].children| && m < |nodes[levels[t].ids[j]].entries|
    requires j + 1 < |levels[t].offs| && j <= |levels[t].bounds|
    ensures var v := nodes[levels[t].ids[j]];
      var cut := SplitInnerLevel(levels[t], j, rightId, v.entries[m], levels[t].offs[j] + m + 1);
      Pending(k, nodes[levels[t].ids[j] := LeftPart(v, m)][rightId := RightPart(v, m)],
              levels, levels[t := cut], rootId, t, j, rightId, v.entries[m])
  {
    hide LeavesOk, Less, EntryOk, Sorted, AllOk, Covers, SplitInnerLevel, InsertAt;
    var id := levels[t].ids[j];
    var v := nodes[id];
    var nodes' := nodes[id := LeftPart(v, m)][rightId := RightPart(v, m)];
    var cut := SplitInnerLevel(levels[t], j, rightId, v.entries[m], levels[t].offs[j] + m + 1);
    NotInLevels(k, nodes, levels, rootId, rightId);
    assert height[id] == t;
    forall x, y | 0 <= x < |levels| && x != t && 0 <= y < |levels[x].ids| ensures levels[x].ids[y] != id {
      assert height[levels[x].ids[y]] == x;
    }
    assert Linked(k, nodes, levels[t], levels[t - 1]);
    assert InnerOk(nodes, levels[t], levels[t - 1], j);
    LinkedSplit(k, nodes, levels[t], levels[t - 1], j, m, rightId);
    CutFields(levels[t], j, rightId, v.entries[m], levels[t].offs[j] + m + 1);
    hide Linked, InnerOk;
    LeavesFrame(k, nodes, nodes', levels[0]);
    forall x | 0 < x < |levels| && x != t ensures Linked(k, nodes', levels[x], levels[x - 1]) {
      LinkedFrame(k, nodes, nodes', levels[x], levels[x - 1]);
    }
  }

  lemma CutFields(l: Level, j: nat, id: int, b: Entry, x: nat)
    requires j < |l.ids| && j <= |l.bounds| && j + 1 <= |l.offs|
    ensures SplitInnerLevel(l, j, id, b, x).ids == InsertAt(l.ids, j + 1, id)
    ensures SplitInnerLevel(l, j, id, b, x).bounds == InsertAt(l.bounds, j, b)
  {
  }

  lemma PendingLevel(k: Kind, nodes: Nodes, base: seq<Level>, cur: seq<Level>, rootId: int, t: nat, i: nat, child: int, b: Entry)
    requires Pending(k, nodes, base, cur, rootId, t, i, child, b) && t + 1 < |base|
    ensures cur[t + 1] == base[t + 1]
  {
    hide Linked, LeavesOk, LevelOk;
  }

  /** The tree is one leaf, with room for the entry. */
  ghost predicate OneLeafTakes(levels: seq<Level>, run: seq<Entry>, e: Entry) {
    |levels| == 1 && AllStorable(run) && Storable(e) && HEADER + EntriesSize(run) + EntrySize(e) <= PAGE_SIZE
  }

  lemma OneLeaf(k: Kind, nodes: Nodes, levels: seq<Level>, rootId: int, i: nat, e: Entry)
    requires TreeOk(k, nodes, levels, rootId) && Known(nodes, levels[0].ids) && i < |levels[0].ids|
    requires AllStorable(nodes[levels[0].ids[i]].entries) && Storable(e)
    requires HEADER + EntriesSize(nodes[levels[0].ids[i]].entries) + EntrySize(e) > PAGE_SIZE
    ensures !OneLeafTakes(levels, Flatten(nodes, levels[0].ids), e)
  {
    hide Linked, LeavesOk;
    if |levels| == 1 {
      assert i == 0 && levels[0].ids[..0] == [];
      assert Flatten(nodes, []) == [];
      assert Flatten(nodes, levels[0].ids) == nodes[levels[0].ids[0]].entries;
    }
  }
}
