/** What a page-resident B+ tree is: levels of nodes, the separators between
    neighbours, and the sorted run of entries that its linked leaves spell out. */
module DiskTreeModel {
  import opened Values
  import opened Bytes
  import opened NodeCodec

  /** The largest entry, in bytes, for which every split by count yields two halves that fit a page. */
  const MAX_ENTRY: nat := 209

  type Nodes = map<int, NodeView>

  /** One level of the tree, left to right: page ids, the separator between each
      two neighbours, and (above the leaves) where each node's children start in
      the level below. */
  datatype Level = Level(ids: seq<int>, bounds: seq<Entry>, offs: seq<nat>)

  predicate EntryOk(k: Kind, e: Entry) {
    OfKind(k, e.key) && Storable(e) && EntrySize(e) <= MAX_ENTRY
  }

  ghost predicate AllOk(k: Kind, es: seq<Entry>) {
    forall i :: 0 <= i < |es| ==> EntryOk(k, es[i])
  }

  ghost predicate Sorted(es: seq<Entry>) {
    forall i, j :: 0 <= i < j < |es| ==> Less(es[i], es[j])
  }

  /** Entry e belongs at position i of a level with these separators. */
  ghost predicate Covers(bounds: seq<Entry>, i: int, e: Entry) {
    && (0 < i <= |bounds| ==> !Less(e, bounds[i - 1]))
    && (0 <= i < |bounds| ==> Less(e, bounds[i]))
  }

  ghost predicate NoDuplicates(ids: seq<int>) {
    forall i, j :: 0 <= i < j < |ids| ==> ids[i] != ids[j]
  }

  ghost predicate LevelOk(k: Kind, l: Level) {
    && |l.ids| == |l.bounds| + 1
    && NoDuplicates(l.ids)
    && AllOk(k, l.bounds)
    && Sorted(l.bounds)
  }

  function NextId(ids: seq<int>, i: nat): int {
    if i + 1 < |ids| then ids[i + 1] else -1
  }

  /** A leaf at position i of a level with these separators: sorted, within its
      separators, and linked to its right neighbour. */
  ghost predicate LeafAt(k: Kind, v: NodeView, bounds: seq<Entry>, i: int, next: int) {
    && v.leaf && v.children == [] && v.nextLeaf == next
    && AllOk(k, v.entries)
    && Sorted(v.entries)
    && (forall t :: 0 <= t < |v.entries| ==> Covers(bounds, i, v.entries[t]))
  }

  ghost predicate LeafOk(k: Kind, nodes: Nodes, l: Level, i: nat)
    requires i < |l.ids|
  {
    l.ids[i] in nodes && LeafAt(k, nodes[l.ids[i]], l.bounds, i, NextId(l.ids, i))
  }

  ghost predicate LeavesOk(k: Kind, nodes: Nodes, l: Level) {
    LevelOk(k, l) && forall i :: 0 <= i < |l.ids| ==> LeafOk(k, nodes, l, i)
  }

  ghost predicate OffsOk(offs: seq<nat>, count: nat, below: nat) {
    && |offs| == count + 1 && offs[0] == 0 && offs[count] == below
    && (forall i, j :: 0 <= i < j < |offs| ==> offs[i] < offs[j])
  }

  /** An inner node whose children and separators are the stretch lo..hi of the level below. */
  ghost predicate Spans(v: NodeView, down: Level, lo: int, hi: int) {
    && !v.leaf && v.nextLeaf == -1
    && |down.ids| == |down.bounds| + 1
    && 0 <= lo < hi <= |down.ids|
    && v.children == down.ids[lo..hi]
    && v.entries == down.bounds[lo..hi - 1]
  }

  /** The j-th inner node spans its stretch of the level below. */
  ghost predicate InnerOk(nodes: Nodes, up: Level, down: Level, j: nat) {
    && j < |up.ids| && j + 1 < |up.offs|
    && up.ids[j] in nodes
    && Spans(nodes[up.ids[j]], down, up.offs[j], up.offs[j + 1])
  }

  /** The separator right of the j-th inner node is the one between its last child and the next. */
  ghost predicate BoundOk(up: Level, down: Level, j: nat)
    requires j < |up.bounds|
  {
    && j + 1 < |up.offs|
    && 0 < up.offs[j + 1] <= |down.bounds|
    && up.bounds[j] == down.bounds[up.offs[j + 1] - 1]
  }

  /** A level above another one: it splits the lower level's nodes and separators between its own. */
  ghost predicate Linked(k: Kind, nodes: Nodes, up: Level, down: Level) {
    && LevelOk(k, up) && LevelOk(k, down)
    && OffsOk(up.offs, |up.ids|, |down.ids|)
    && (forall j :: 0 <= j < |up.ids| ==> InnerOk(nodes, up, down, j))
    && (forall j :: 0 <= j < |up.bounds| ==> BoundOk(up, down, j))
  }

  /** Entries of the given leaves, left to right. */
  ghost function Flatten(nodes: Nodes, ids: seq<int>): seq<Entry>
    requires forall i :: 0 <= i < |ids| ==> ids[i] in nodes
  {
    if ids == [] then [] else Flatten(nodes, ids[..|ids| - 1]) + nodes[ids[|ids| - 1]].entries
  }

  // ----- Position of an entry among sorted ones

  /** In a sorted run, an entry falls after exactly the smaller ones. */
  lemma SortedAround(k: Kind, es: seq<Entry>, e: Entry, p: nat)
    requires AllOk(k, es) && OfKind(k, e.key) && Sorted(es) && p <= |es|
    requires 0 < p ==> Less(es[p - 1], e)
    requires p < |es| ==> !Less(es[p], e)
    ensures forall i :: 0 <= i < p ==> Less(es[i], e)
    ensures forall i :: p <= i < |es| ==> !Less(es[i], e)
  {
    hide *;
    forall i | 0 <= i < p ensures Less(es[i], e) {
      if i < p - 1 {
        Before(k, es, e, i, p - 1);
      }
    }
    forall i | p <= i < |es| ensures !Less(es[i], e) {
      if p < i && Less(es[i], e) {
        Before(k, es, e, p, i);
      }
    }
  }

  lemma Before(k: Kind, es: seq<Entry>, e: Entry, i: nat, j: nat)
    requires AllOk(k, es) && OfKind(k, e.key) && Sorted(es)
    requires i < j < |es| && Less(es[j], e)
    ensures Less(es[i], e)
  {
    hide Less, OfKind;
    assert EntryOk(k, es[i]) && EntryOk(k, es[j]);
    LessTransitive(k, es[i], es[j], e);
  }

  /** Inserting an entry at its place keeps a run sorted. */
  lemma SortedInsert(k: Kind, es: seq<Entry>, e: Entry, p: nat)
    requires AllOk(k, es) && EntryOk(k, e) && Sorted(es) && p <= |es|
    requires forall i :: 0 <= i < p ==> Less(es[i], e)
    requires forall i :: p <= i < |es| ==> Less(e, es[i])
    ensures Sorted(es[..p] + [e] + es[p..])
    ensures AllOk(k, es[..p] + [e] + es[p..])
  {
    hide Less;
  }

  /** Everything at or after a separator's right side is at or above it. */
  lemma CoversAllLeft(k: Kind, bounds: seq<Entry>, i: nat, e: Entry, j: nat)
    requires AllOk(k, bounds) && Sorted(bounds) && OfKind(k, e.key)
    requires i <= |bounds| && Covers(bounds, i, e) && j < i
    ensures !Less(e, bounds[j])
  {
    hide Less, OfKind;
    if j < i - 1 && Less(e, bounds[j]) {
      assert EntryOk(k, bounds[j]) && EntryOk(k, bounds[i - 1]);
      LessTransitive(k, e, bounds[j], bounds[i - 1]);
    }
  }

  lemma CoversAllRight(k: Kind, bounds: seq<Entry>, i: nat, e: Entry, j: nat)
    requires AllOk(k, bounds) && Sorted(bounds) && OfKind(k, e.key)
    requires Covers(bounds, i, e) && i <= j < |bounds|
    ensures Less(e, bounds[j])
  {
    hide Less, OfKind;
    if i < j {
      assert EntryOk(k, bounds[i]) && EntryOk(k, bounds[j]);
      LessTransitive(k, e, bounds[i], bounds[j]);
    }
  }

  /** Going down one level keeps the searched entry covered. */
  lemma Descend(k: Kind, nodes: Nodes, up: Level, down: Level, j: nat, e: Entry, v: NodeView, idx: nat)
    requires Linked(k, nodes, up, down) && j < |up.ids|
    requires Covers(up.bounds, j, e)
    requires up.ids[j] in nodes && v == nodes[up.ids[j]]
    requires idx <= |v.entries|
    requires 0 < idx ==> !Less(e, v.entries[idx - 1])
    requires idx < |v.entries| ==> Less(e, v.entries[idx])
    ensures idx < |v.children|
    ensures up.offs[j] + idx < |down.ids| && v.children[idx] == down.ids[up.offs[j] + idx]
    ensures Covers(down.bounds, up.offs[j] + idx, e)
  {
    hide Less, Sorted, AllOk;
    assert InnerOk(nodes, up, down, j);
    var p := up.offs[j] + idx;
    if 0 < idx {
      assert v.entries[idx - 1] == down.bounds[p - 1];
    } else if 0 < j {
      assert BoundOk(up, down, j - 1);
    }
    if idx < |v.entries| {
      assert v.entries[idx] == down.bounds[p];
    } else if j < |up.bounds| {
      assert BoundOk(up, down, j);
    }
  }

  // ----- Splitting a node: how its level and the level above change

  function InsertAt<T>(s: seq<T>, p: nat, x: T): (r: seq<T>)
    requires p <= |s|
    ensures |r| == |s| + 1
  {
    s[..p] + [x] + s[p..]
  }

  lemma InsertIndex<T>(s: seq<T>, p: nat, x: T, t: nat)
    requires p <= |s| && t <= |s|
    ensures InsertAt(s, p, x)[t] == if t < p then s[t] else if t == p then x else s[t - 1]
  {
  }

  lemma InsertBefore<T>(s: seq<T>, p: nat, x: T, lo: nat, hi: nat)
    requires lo <= hi <= p <= |s|
    ensures InsertAt(s, p, x)[lo..hi] == s[lo..hi]
  {
  }

  lemma InsertAfter<T>(s: seq<T>, p: nat, x: T, lo: nat, hi: nat)
    requires p <= lo <= hi <= |s|
    ensures InsertAt(s, p, x)[lo + 1..hi + 1] == s[lo..hi]
  {
  }

  lemma InsertInside<T>(s: seq<T>, p: nat, x: T, lo: nat, hi: nat)
    requires lo <= p <= hi <= |s|
    ensures InsertAt(s, p, x)[lo..hi + 1] == InsertAt(s[lo..hi], p - lo, x)
  {
    assert InsertAt(s, p, x) == s[..lo] + InsertAt(s[lo..hi], p - lo, x) + s[hi..];
  }

  /** Node i of a level hands its upper part, from separator b on, to a new node on its right. */
  function SplitLevel(l: Level, i: nat, id: int, b: Entry): Level
    requires i < |l.ids| && i <= |l.bounds|
  {
    Level(InsertAt(l.ids, i + 1, id), InsertAt(l.bounds, i, b), l.offs)
  }

  /** The same above the leaves, where the new node's children start at offset x. */
  function SplitInnerLevel(l: Level, i: nat, id: int, b: Entry, x: nat): Level
    requires i < |l.ids| && i <= |l.bounds| && i + 1 <= |l.offs|
  {
    SplitLevel(l, i, id, b).(offs := InsertAt<nat>(l.offs, i + 1, x))
  }

  lemma LevelOkSplit(k: Kind, l: Level, i: nat, id: int, b: Entry)
    requires LevelOk(k, l) && i < |l.ids| && id !in l.ids && EntryOk(k, b)
    requires 0 < i ==> Less(l.bounds[i - 1], b)
    requires i < |l.bounds| ==> Less(b, l.bounds[i])
    ensures LevelOk(k, SplitLevel(l, i, id, b))
  {
    hide Less, EntryOk;
    assert forall t :: 0 <= t < |l.bounds| ==> EntryOk(k, l.bounds[t]);
    forall t | 0 <= t < i ensures Less(l.bounds[t], b) {
      if t < i - 1 {
        EntryOkKind(k, l.bounds[t]); EntryOkKind(k, l.bounds[i - 1]); EntryOkKind(k, b);
        LessTransitive(k, l.bounds[t], l.bounds[i - 1], b);
      }
    }
    forall t | i <= t < |l.bounds| ensures Less(b, l.bounds[t]) {
      if i < t {
        EntryOkKind(k, l.bounds[t]); EntryOkKind(k, l.bounds[i]); EntryOkKind(k, b);
        LessTransitive(k, b, l.bounds[i], l.bounds[t]);
      }
    }
    SortedInsert(k, l.bounds, b, i);
  }

  lemma EntryOkKind(k: Kind, e: Entry)
    requires EntryOk(k, e)
    ensures OfKind(k, e.key) && Storable(e) && EntrySize(e) <= MAX_ENTRY
  {
  }

  /** A leaf's entries replaced by other ones that belong at its place. */
  lemma LeavesReplace(k: Kind, nodes: Nodes, l: Level, i: nat, v: NodeView)
    requires LeavesOk(k, nodes, l) && i < |l.ids|
    requires v.leaf && v.children == [] && v.nextLeaf == NextId(l.ids, i)
    requires AllOk(k, v.entries) && Sorted(v.entries)
    requires forall t :: 0 <= t < |v.entries| ==> Covers(l.bounds, i, v.entries[t])
    ensures LeavesOk(k, nodes[l.ids[i] := v], l)
  {
    hide Less, EntryOk, Covers, Sorted;
    var nodes' := nodes[l.ids[i] := v];
    forall t | 0 <= t < |l.ids| ensures LeafOk(k, nodes', l, t) {
      assert LeafOk(k, nodes, l, t) && LeafOk(k, nodes, l, i);
    }
  }

  /** Where the separator of a split leaf falls among its neighbours' separators. */
  lemma SplitSeparator(k: Kind, bounds: seq<Entry>, i: nat, es: seq<Entry>, mid: nat)
    requires AllOk(k, bounds) && AllOk(k, es) && Sorted(es) && i <= |bounds|
    requires forall t :: 0 <= t < |es| ==> Covers(bounds, i, es[t])
    requires 0 < mid < |es|
    ensures 0 < i ==> Less(bounds[i - 1], es[mid])
    ensures i < |bounds| ==> Less(es[mid], bounds[i])
  {
    hide Less, EntryOk;
    assert Covers(bounds, i, es[mid]) && Covers(bounds, i, es[0]);
    if 0 < i {
      EntryOkKind(k, es[0]); EntryOkKind(k, es[mid]); EntryOkKind(k, bounds[i - 1]);
      LessTotal(k, es[0], bounds[i - 1]);
      if Less(bounds[i - 1], es[0]) {
        LessTransitive(k, bounds[i - 1], es[0], es[mid]);
      }
    }
  }

  /** The two halves of a split leaf belong on either side of the new separator. */
  lemma SplitCovers(k: Kind, bounds: seq<Entry>, i: nat, es: seq<Entry>, mid: nat)
    requires AllOk(k, es) && Sorted(es) && i <= |bounds|
    requires forall t :: 0 <= t < |es| ==> Covers(bounds, i, es[t])
    requires 0 < mid < |es|
    ensures forall t :: 0 <= t < mid ==> Covers(InsertAt(bounds, i, es[mid]), i, es[t])
    ensures forall t :: mid <= t < |es| ==> Covers(InsertAt(bounds, i, es[mid]), i + 1, es[t])
  {
    hide Less, EntryOk;
    var bs := InsertAt(bounds, i, es[mid]);
    forall t | 0 <= t < mid ensures Covers(bs, i, es[t]) {
      assert Covers(bounds, i, es[t]);
    }
    forall t | mid <= t < |es| ensures Covers(bs, i + 1, es[t]) {
      assert Covers(bounds, i, es[t]);
      EntryOkKind(k, es[t]); EntryOkKind(k, es[mid]);
      LessTotal(k, es[t], es[mid]);
    }
  }

  /** Separators away from a split keep covering what they covered. */
  lemma SplitCoversElsewhere(bounds: seq<Entry>, i: nat, b: Entry, t: nat, e: Entry)
    requires i <= |bounds| && t <= |bounds| && t != i && Covers(bounds, t, e)
    ensures Covers(InsertAt(bounds, i, b), if t < i then t else t + 1, e)
  {
    hide Less;
  }

  lemma LeavesSplit(k: Kind, nodes: Nodes, l: Level, i: nat, es: seq<Entry>, mid: nat, rightId: int)
    requires LeavesOk(k, nodes, l) && i < |l.ids|
    requires AllOk(k, es) && Sorted(es)
    requires forall t :: 0 <= t < |es| ==> Covers(l.bounds, i, es[t])
    requires 0 < mid < |es| && rightId !in nodes
    ensures var left := NodeView(true, rightId, es[..mid], []);
      var right := NodeView(true, NextId(l.ids, i), es[mid..], []);
      LeavesOk(k, nodes[l.ids[i] := left][rightId := right], SplitLevel(l, i, rightId, es[mid]))
  {
    hide Less, EntryOk, Covers, Sorted, AllOk, InsertAt;
    var left := NodeView(true, rightId, es[..mid], []);
    var right := NodeView(true, NextId(l.ids, i), es[mid..], []);
    var nodes' := nodes[l.ids[i] := left][rightId := right];
    var l' := SplitLevel(l, i, rightId, es[mid]);
    assert rightId !in l.ids by {
      LeavesKnown(k, nodes, l);
    }
    SplitSeparator(k, l.bounds, i, es, mid);
    assert EntryOk(k, es[mid]) by {
      AllOkAt(k, es, mid);
    }
    LevelOkSplit(k, l, i, rightId, es[mid]);
    HalvesAt(k, l, i, es, mid, rightId);
    assert |l.ids| == |l.bounds| + 1 && NoDuplicates(l.ids);
    forall t | 0 <= t < |l'.ids| ensures LeafOk(k, nodes', l', t) {
      InsertIndex(l.ids, i + 1, rightId, t);
      if t < i || i + 1 < t {
        var u := if t < i then t else t - 1;
        assert LeafOk(k, nodes, l, u);
        OtherLeaf(k, nodes[l.ids[u]], l, i, rightId, es[mid], u);
      }
    }
  }

  lemma AllOkAt(k: Kind, es: seq<Entry>, i: nat)
    requires AllOk(k, es) && i < |es|
    ensures EntryOk(k, es[i])
  {
  }

  lemma HalvesAt(k: Kind, l: Level, i: nat, es: seq<Entry>, mid: nat, rightId: int)
    requires i < |l.ids| == |l.bounds| + 1
    requires AllOk(k, es) && Sorted(es) && 0 < mid < |es|
    requires forall t :: 0 <= t < |es| ==> Covers(l.bounds, i, es[t])
    ensures var l' := SplitLevel(l, i, rightId, es[mid]);
      && LeafAt(k, NodeView(true, rightId, es[..mid], []), l'.bounds, i, NextId(l'.ids, i))
      && LeafAt(k, NodeView(true, NextId(l.ids, i), es[mid..], []), l'.bounds, i + 1, NextId(l'.ids, i + 1))
  {
    hide Less, EntryOk, Covers;
    SplitCovers(k, l.bounds, i, es, mid);
  }

  /** A leaf that is not the one split keeps its separators and, unless it is just left of it, its neighbour. */
  lemma OtherLeaf(k: Kind, v: NodeView, l: Level, i: nat, id: int, b: Entry, u: nat)
    requires i < |l.ids| == |l.bounds| + 1 && u < |l.ids| && u != i
    requires LeafAt(k, v, l.bounds, u, NextId(l.ids, u))
    ensures var l' := SplitLevel(l, i, id, b); var t := if u < i then u else u + 1;
      LeafAt(k, v, l'.bounds, t, NextId(l'.ids, t))
  {
    hide Less, EntryOk, Covers, Sorted, AllOk;
    forall x | 0 <= x < |v.entries|
      ensures Covers(InsertAt(l.bounds, i, b), if u < i then u else u + 1, v.entries[x])
    {
      SplitCoversElsewhere(l.bounds, i, b, u, v.entries[x]);
    }
  }

  /** Linking two levels reads no node but the upper level's own. */
  lemma LinkedFrame(k: Kind, nodes: Nodes, nodes': Nodes, up: Level, down: Level)
    requires Linked(k, nodes, up, down)
    requires forall j :: 0 <= j < |up.ids| ==> up.ids[j] in nodes ==> up.ids[j] in nodes' && nodes'[up.ids[j]] == nodes[up.ids[j]]
    ensures Linked(k, nodes', up, down)
  {
    hide Less, Sorted, AllOk;
    forall j | 0 <= j < |up.ids| ensures InnerOk(nodes', up, down, j) {
      assert InnerOk(nodes, up, down, j);
    }
  }

  function Shift(offs: seq<nat>, j: nat): (r: seq<nat>)
    ensures |r| == |offs|
  {
    seq(|offs|, t requires 0 <= t < |offs| => if t <= j then offs[t] else offs[t] + 1)
  }

  /** The parent of a node that split takes in the new child and the new separator. */
  function Adopt(v: NodeView, ip: nat, child: int, b: Entry): NodeView
    requires ip <= |v.entries| && ip + 1 <= |v.children|
  {
    v.(entries := InsertAt(v.entries, ip, b), children := InsertAt(v.children, ip + 1, child))
  }

  lemma LinkedAdopt(k: Kind, nodes: Nodes, up: Level, down: Level, j: nat, i: nat, child: int, b: Entry)
    requires Linked(k, nodes, up, down) && j < |up.ids|
    requires up.offs[j] <= i < up.offs[j + 1]
    requires LevelOk(k, SplitLevel(down, i, child, b))
    ensures InnerOk(nodes, up, down, j) && |down.ids| == |down.bounds| + 1
    ensures i - up.offs[j] < |nodes[up.ids[j]].children| == |nodes[up.ids[j]].entries| + 1
    ensures var v := Adopt(nodes[up.ids[j]], i - up.offs[j], child, b);
      Linked(k, nodes[up.ids[j] := v], up.(offs := Shift(up.offs, j)), SplitLevel(down, i, child, b))
  {
    hide Less, Sorted, AllOk;
    assert InnerOk(nodes, up, down, j);
    var v := Adopt(nodes[up.ids[j]], i - up.offs[j], child, b);
    var nodes' := nodes[up.ids[j] := v];
    var up' := up.(offs := Shift(up.offs, j));
    var down' := SplitLevel(down, i, child, b);
    forall t | 0 <= t < |up'.ids| ensures InnerOk(nodes', up', down', t) {
      assert InnerOk(nodes, up, down, t);
      assert t + 1 < j ==> up.offs[t + 1] < up.offs[j];
      assert j + 1 < t ==> up.offs[j + 1] < up.offs[t];
      AdoptInner(nodes, up, down, j, i, child, b, t);
    }
    forall t | 0 <= t < |up'.bounds| ensures BoundOk(up', down', t) {
      assert BoundOk(up, down, t);
    }
  }

  lemma AdoptInner(nodes: Nodes, up: Level, down: Level, j: nat, i: nat, child: int, b: Entry, t: nat)
    requires |up.offs| == |up.ids| + 1 && j < |up.ids| && t < |up.ids|
    requires up.offs[j] <= i < up.offs[j + 1]
    requires t < j ==> up.offs[t + 1] <= up.offs[j]
    requires j < t ==> up.offs[j + 1] <= up.offs[t]
    requires InnerOk(nodes, up, down, j) && InnerOk(nodes, up, down, t)
    requires t != j ==> up.ids[t] != up.ids[j]
    requires i - up.offs[j] < |nodes[up.ids[j]].children| == |nodes[up.ids[j]].entries| + 1
    ensures InnerOk(nodes[up.ids[j] := Adopt(nodes[up.ids[j]], i - up.offs[j], child, b)],
                    up.(offs := Shift(up.offs, j)), SplitLevel(down, i, child, b), t)
  {
    var lo, hi := up.offs[t], up.offs[t + 1];
    hide Spans;
    if t < j {
      SpansBefore(nodes[up.ids[t]], down, lo, hi, i, child, b);
    } else if t > j {
      SpansAfter(nodes[up.ids[t]], down, lo, hi, i, child, b);
    } else {
      SpansAround(nodes[up.ids[t]], down, lo, hi, i, child, b);
    }
  }

  lemma SpansBefore(v: NodeView, down: Level, lo: nat, hi: nat, i: nat, child: int, b: Entry)
    requires Spans(v, down, lo, hi) && hi <= i < |down.ids|
    ensures Spans(v, SplitLevel(down, i, child, b), lo, hi)
  {
    InsertBefore(down.ids, i + 1, child, lo, hi);
    InsertBefore(down.bounds, i, b, lo, hi - 1);
  }

  lemma SpansAfter(v: NodeView, down: Level, lo: nat, hi: nat, i: nat, child: int, b: Entry)
    requires Spans(v, down, lo, hi) && i < lo
    ensures Spans(v, SplitLevel(down, i, child, b), lo + 1, hi + 1)
  {
    hide InsertAt;
    InsertAfter(down.ids, i + 1, child, lo, hi);
    InsertAfter(down.bounds, i, b, lo, hi - 1);
  }

  lemma SpansAround(v: NodeView, down: Level, lo: nat, hi: nat, i: nat, child: int, b: Entry)
    requires Spans(v, down, lo, hi) && lo <= i < hi
    ensures i - lo <= |v.entries| && i - lo + 1 <= |v.children|
    ensures Spans(Adopt(v, i - lo, child, b), SplitLevel(down, i, child, b), lo, hi + 1)
  {
    hide InsertAt;
    InsertInside(down.ids, i + 1, child, lo, hi);
    InsertInside(down.bounds, i, b, lo, hi - 1);
  }

  function LeftPart(v: NodeView, m: nat): NodeView
    requires m < |v.entries| && m + 1 <= |v.children|
  {
    v.(entries := v.entries[..m], children := v.children[..m + 1])
  }

  function RightPart(v: NodeView, m: nat): NodeView
    requires m < |v.entries| && m + 1 <= |v.children|
  {
    NodeView(false, -1, v.entries[m + 1..], v.children[m + 1..])
  }

  /** An inner node that splits: its middle separator moves up, both parts stay linked below. */
  lemma LinkedSplit(k: Kind, nodes: Nodes, up: Level, down: Level, j: nat, m: nat, rightId: int)
    requires Linked(k, nodes, up, down) && j < |up.ids|
    requires InnerOk(nodes, up, down, j)
    requires m + 1 < |nodes[up.ids[j]].children| && m < |nodes[up.ids[j]].entries|
    requires rightId !in up.ids
    ensures var v := nodes[up.ids[j]];
      var up' := SplitInnerLevel(up, j, rightId, v.entries[m], up.offs[j] + m + 1);
      Linked(k, nodes[up.ids[j] := LeftPart(v, m)][rightId := RightPart(v, m)], up', down)
  {
    hide Less, Covers, EntryOk, Sorted, AllOk, InnerOk, BoundOk, InsertAt, NoDuplicates;
    LinkedKnown(k, nodes, up, down);
    var v := nodes[up.ids[j]];
    SplitLevels(k, nodes, up, down, j, m, rightId);
    assert |up.offs| == |up.ids| + 1 == |up.bounds| + 2;
    hide LevelOk, OffsOk;
    var up' := SplitInnerLevel(up, j, rightId, v.entries[m], up.offs[j] + m + 1);
    var nodes' := nodes[up.ids[j] := LeftPart(v, m)][rightId := RightPart(v, m)];
    forall t | 0 <= t < |up'.ids| ensures InnerOk(nodes', up', down, t) {
      assert t < j ==> InnerOk(nodes, up, down, t);
      assert j + 1 < t ==> InnerOk(nodes, up, down, t - 1);
      SplitInner(nodes, up, down, j, m, rightId, v.entries[m], t);
    }
    forall t | 0 <= t < |up'.bounds| ensures BoundOk(up', down, t) {
      SplitBound(k, nodes, up, down, j, m, rightId, t);
    }
  }

  lemma SplitLevels(k: Kind, nodes: Nodes, up: Level, down: Level, j: nat, m: nat, rightId: int)
    requires Linked(k, nodes, up, down) && j < |up.ids|
    requires InnerOk(nodes, up, down, j)
    requires m + 1 < |nodes[up.ids[j]].children| && m < |nodes[up.ids[j]].entries|
    requires rightId !in up.ids
    ensures LevelOk(k, SplitInnerLevel(up, j, rightId, nodes[up.ids[j]].entries[m], up.offs[j] + m + 1))
    ensures OffsOk(InsertAt<nat>(up.offs, j + 1, up.offs[j] + m + 1), |up.ids| + 1, |down.ids|)
    ensures forall u :: 0 <= u < |up.ids| && u != j ==> up.ids[u] != up.ids[j]
  {
    hide Less, Covers, EntryOk, Sorted, AllOk, BoundOk, InsertAt;
    SplitNeighbours(k, nodes, up, down, j, m);
    LevelOkSplit(k, up, j, rightId, nodes[up.ids[j]].entries[m]);
    SplitOffs(up.offs, j, up.offs[j] + m + 1, |up.ids|, |down.ids|);
  }

  /** The separator that moves up lies strictly between the split node's own neighbours' separators. */
  lemma SplitNeighbours(k: Kind, nodes: Nodes, up: Level, down: Level, j: nat, m: nat)
    requires Linked(k, nodes, up, down) && j < |up.ids|
    requires InnerOk(nodes, up, down, j)
    requires m < |nodes[up.ids[j]].entries|
    ensures EntryOk(k, nodes[up.ids[j]].entries[m])
    ensures 0 < j ==> Less(up.bounds[j - 1], nodes[up.ids[j]].entries[m])
    ensures j < |up.bounds| ==> Less(nodes[up.ids[j]].entries[m], up.bounds[j])
  {
    hide Less, EntryOk;
    assert nodes[up.ids[j]].entries[m] == down.bounds[up.offs[j] + m];
    if 0 < j {
      assert BoundOk(up, down, j - 1);
    }
    if j < |up.bounds| {
      assert BoundOk(up, down, j);
    }
  }

  lemma SplitBound(k: Kind, nodes: Nodes, up: Level, down: Level, j: nat, m: nat, rightId: int, t: nat)
    requires Linked(k, nodes, up, down) && j < |up.ids|
    requires InnerOk(nodes, up, down, j)
    requires m + 1 < |nodes[up.ids[j]].children| && m < |nodes[up.ids[j]].entries|
    requires t < |up.bounds| + 1
    ensures var up' := SplitInnerLevel(up, j, rightId, nodes[up.ids[j]].entries[m], up.offs[j] + m + 1);
      BoundOk(up', down, t)
  {
    hide Less, Sorted, AllOk;
    if t != j {
      assert BoundOk(up, down, if t < j then t else t - 1);
    }
  }

  lemma SplitOffs(offs: seq<nat>, j: nat, x: nat, count: nat, below: nat)
    requires OffsOk(offs, count, below) && j < count && offs[j] < x < offs[j + 1]
    ensures OffsOk(InsertAt<nat>(offs, j + 1, x), count + 1, below)
  {
  }

  lemma SplitInner(nodes: Nodes, up: Level, down: Level, j: nat, m: nat, rightId: int, b: Entry, t: nat)
    requires |up.offs| == |up.ids| + 1 == |up.bounds| + 2 && j < |up.ids|
    requires InnerOk(nodes, up, down, j)
    requires m + 1 < |nodes[up.ids[j]].children| && m < |nodes[up.ids[j]].entries|
    requires t < |up.ids| + 1 && rightId !in up.ids
    requires t < j ==> InnerOk(nodes, up, down, t) && up.ids[t] != up.ids[j]
    requires j + 1 < t ==> InnerOk(nodes, up, down, t - 1) && up.ids[t - 1] != up.ids[j]
    ensures var v := nodes[up.ids[j]];
      InnerOk(nodes[up.ids[j] := LeftPart(v, m)][rightId := RightPart(v, m)],
              SplitInnerLevel(up, j, rightId, b, up.offs[j] + m + 1), down, t)
  {
    var v, lo := nodes[up.ids[j]], up.offs[j];
    SpansParts(v, down, lo, up.offs[j + 1], m);
    hide InsertAt, Spans, LeftPart, RightPart;
    InsertIndex(up.ids, j + 1, rightId, t);
    InsertIndex<nat>(up.offs, j + 1, lo + m + 1, t);
    InsertIndex<nat>(up.offs, j + 1, lo + m + 1, t + 1);
  }

  lemma SpansParts(v: NodeView, down: Level, lo: nat, hi: nat, m: nat)
    requires Spans(v, down, lo, hi) && m + 1 < |v.children| && m < |v.entries|
    ensures Spans(LeftPart(v, m), down, lo, lo + m + 1)
    ensures Spans(RightPart(v, m), down, lo + m + 1, hi)
  {
    SliceSlice(down.ids, lo, hi, 0, m + 1);
    SliceSlice(down.bounds, lo, hi - 1, 0, m);
    SliceSlice(down.ids, lo, hi, m + 1, hi - lo);
    SliceSlice(down.bounds, lo, hi - 1, m + 1, hi - 1 - lo);
  }

  // ----- Whole trees

  /** All levels fit together, the leaves hold the entries, and one root is on top. */
  ghost predicate TreeOk(k: Kind, nodes: Nodes, levels: seq<Level>, rootId: int) {
    && 0 < |levels|
    && LeavesOk(k, nodes, levels[0])
    && (forall t :: 0 < t < |levels| ==> Linked(k, nodes, levels[t], levels[t - 1]))
    && levels[|levels| - 1].ids == [rootId]
  }

  /** Each page belongs to one level, so that writing a page changes one level only. */
  ghost predicate Heights(height: map<int, nat>, levels: seq<Level>) {
    forall t, i :: 0 <= t < |levels| && 0 <= i < |levels[t].ids| ==>
      levels[t].ids[i] in height && height[levels[t].ids[i]] == t
  }

  ghost predicate Known(nodes: Nodes, ids: seq<int>) {
    forall i :: 0 <= i < |ids| ==> ids[i] in nodes
  }

  lemma LeavesKnown(k: Kind, nodes: Nodes, l: Level)
    requires LeavesOk(k, nodes, l)
    ensures Known(nodes, l.ids)
  {
    forall i | 0 <= i < |l.ids| ensures l.ids[i] in nodes {
      assert LeafOk(k, nodes, l, i);
    }
  }

  lemma LinkedKnown(k: Kind, nodes: Nodes, up: Level, down: Level)
    requires Linked(k, nodes, up, down)
    ensures Known(nodes, up.ids)
  {
    forall j | 0 <= j < |up.ids| ensures up.ids[j] in nodes {
      assert InnerOk(nodes, up, down, j);
    }
  }

  /** The state of an insertion that has split node i of level t: levels up to t are
      up to date, levels above still describe level t as it was. */
  ghost predicate Pending(k: Kind, nodes: Nodes, base: seq<Level>, cur: seq<Level>, rootId: int,
                          t: nat, i: nat, child: int, b: Entry) {
    && |cur| == |base| && t < |base|
    && LeavesOk(k, nodes, cur[0])
    && (forall x :: 0 < x <= t ==> Linked(k, nodes, cur[x], cur[x - 1]))
    && (forall x :: t < x < |base| ==> cur[x] == base[x] && Linked(k, nodes, base[x], base[x - 1]))
    && base[|base| - 1].ids == [rootId]
    && LevelOk(k, base[t]) && LevelOk(k, cur[t])
    && i < |base[t].ids|
    && cur[t].ids == InsertAt(base[t].ids, i + 1, child)
    && cur[t].bounds == InsertAt(base[t].bounds, i, b)
  }

  /** Linking reads the lower level's ids and separators only. */
  lemma LinkedBelow(k: Kind, nodes: Nodes, up: Level, down: Level, down': Level)
    requires Linked(k, nodes, up, down) && down'.ids == down.ids && down'.bounds == down.bounds
    ensures Linked(k, nodes, up, down')
  {
    hide Sorted, AllOk, Less;
    forall j | 0 <= j < |up.ids| ensures InnerOk(nodes, up, down', j) {
      assert InnerOk(nodes, up, down, j);
    }
    forall j | 0 <= j < |up.bounds| ensures BoundOk(up, down', j) {
      assert BoundOk(up, down, j);
    }
  }

  lemma LeavesFrame(k: Kind, nodes: Nodes, nodes': Nodes, l: Level)
    requires LeavesOk(k, nodes, l)
    requires forall i :: 0 <= i < |l.ids| && l.ids[i] in nodes ==> l.ids[i] in nodes' && nodes'[l.ids[i]] == nodes[l.ids[i]]
    ensures LeavesOk(k, nodes', l)
  {
    hide Sorted, AllOk, Covers;
    forall i | 0 <= i < |l.ids| ensures LeafOk(k, nodes', l, i) {
      assert LeafOk(k, nodes, l, i);
    }
  }

  // ----- The run of entries the leaves hold

  lemma {:induction false} FlattenFrame(nodes: Nodes, nodes': Nodes, ids: seq<int>)
    requires Known(nodes, ids) && Known(nodes', ids)
    requires forall i :: 0 <= i < |ids| ==> nodes'[ids[i]].entries == nodes[ids[i]].entries
    ensures Flatten(nodes', ids) == Flatten(nodes, ids)
  {
    if ids != [] {
      var n := |ids| - 1;
      assert forall i :: 0 <= i < n ==> ids[..n][i] == ids[i];
      FlattenFrame(nodes, nodes', ids[..n]);
    }
  }

  lemma {:induction false} FlattenHas(nodes: Nodes, ids: seq<int>, e: Entry)
    requires Known(nodes, ids)
    ensures e in Flatten(nodes, ids) <==> exists i :: 0 <= i < |ids| && e in nodes[ids[i]].entries
  {
    if ids != [] {
      var n := |ids| - 1;
      FlattenHas(nodes, ids[..n], e);
      assert forall i :: 0 <= i < n ==> ids[..n][i] == ids[i];
    }
  }

  /** The first n leaves spell out a sorted run, all below the separator on their right. */
  lemma {:induction false} FlattenSorted(k: Kind, nodes: Nodes, l: Level, n: nat)
    requires LeavesOk(k, nodes, l) && n <= |l.ids| && Known(nodes, l.ids)
    ensures Sorted(Flatten(nodes, l.ids[..n])) && AllOk(k, Flatten(nodes, l.ids[..n]))
    ensures 0 < n <= |l.bounds| ==>
      forall x :: 0 <= x < |Flatten(nodes, l.ids[..n])| ==> Less(Flatten(nodes, l.ids[..n])[x], l.bounds[n - 1])
    decreases n
  {
    hide Less, EntryOk;
    if n > 0 {
      var m := n - 1;
      FlattenSorted(k, nodes, l, m);
      assert l.ids[..n][..m] == l.ids[..m];
      assert LeafOk(k, nodes, l, m);
      var a, es := Flatten(nodes, l.ids[..m]), nodes[l.ids[m]].entries;
      assert Flatten(nodes, l.ids[..n]) == a + es;
      if m > 0 {
        forall x, y | 0 <= x < |a| && 0 <= y < |es| ensures Less(a[x], es[y]) {
          assert Covers(l.bounds, m, es[y]);
          BelowSeparator(k, a[x], l.bounds[m - 1], es[y]);
        }
      }
      if n <= |l.bounds| {
        forall x | 0 <= x < |a + es| ensures Less((a + es)[x], l.bounds[n - 1]) {
          if x < |a| {
            EntryOkKind(k, a[x]); EntryOkKind(k, l.bounds[m - 1]); EntryOkKind(k, l.bounds[n - 1]);
            LessTransitive(k, a[x], l.bounds[m - 1], l.bounds[n - 1]);
          } else {
            assert Covers(l.bounds, m, es[x - |a|]);
          }
        }
      }
    }
  }

  lemma BelowSeparator(k: Kind, a: Entry, b: Entry, c: Entry)
    requires EntryOk(k, a) && EntryOk(k, b) && EntryOk(k, c)
    requires Less(a, b) && !Less(c, b)
    ensures Less(a, c)
  {
    hide Less, Storable;
    LessTotal(k, b, c);
    if Less(b, c) {
      LessTransitive(k, a, b, c);
    }
  }

  lemma HasMember<T>(s: seq<T>)
    ensures s != [] ==> exists e :: e in s
  {
    if s != [] {
      assert s[0] in s;
    }
  }

  /** A sorted run is determined by the set of its entries. */
  lemma {:induction false} SortedUnique(k: Kind, a: seq<Entry>, b: seq<Entry>)
    requires Sorted(a) && Sorted(b) && AllOk(k, a) && AllOk(k, b)
    requires forall e :: e in a <==> e in b
    ensures a == b
    decreases |a|
  {
    hide Less, EntryOk;
    if a == [] {
      HasMember(b);
    } else {
      HasMember(a);
      assert b != [] by {
        assert a[0] in b;
      }
      LastIsGreatest(k, a, b);
      var a', b' := a[..|a| - 1], b[..|b| - 1];
      forall e ensures e in a' <==> e in b' {
        LastApart(k, a, e);
        LastApart(k, b, e);
      }
      SortedUnique(k, a', b');
      assert a == a' + [a[|a| - 1]] && b == b' + [b[|b| - 1]];
    }
  }

  lemma LastIsGreatest(k: Kind, a: seq<Entry>, b: seq<Entry>)
    requires Sorted(a) && Sorted(b) && AllOk(k, a) && AllOk(k, b) && a != [] && b != []
    requires forall e :: e in a <==> e in b
    ensures a[|a| - 1] == b[|b| - 1]
  {
    hide Less, EntryOk;
    var x, y := a[|a| - 1], b[|b| - 1];
    EntryOkKind(k, x);
    EntryOkKind(k, y);
    LessTotal(k, x, y);
    assert x in b && y in a;
  }

  lemma LastApart(k: Kind, a: seq<Entry>, e: Entry)
    requires Sorted(a) && AllOk(k, a) && a != []
    ensures e in a[..|a| - 1] <==> e in a && e != a[|a| - 1]
  {
    hide Less, EntryOk;
    var x := a[|a| - 1];
    EntryOkKind(k, x);
    LessTotal(k, x, x);
    assert a == a[..|a| - 1] + [x];
  }

  // ----- Range scans of a sorted run

  predicate InRange(e: Entry, lo: Option<Value>, hi: Option<Value>) {
    && (lo.Some? ==> !ValueLess(e.key, lo.value))
    && (hi.Some? ==> !ValueLess(hi.value, e.key))
  }

  /** Both limits belong to the range: of numbers by size, and otherwise in the column's order. */
  lemma RangeMeans(k: Kind, e: Entry, lo: Value, hi: Value)
    requires OfKind(k, e.key) && OfKind(k, lo) && OfKind(k, hi)
    ensures InRange(e, Some(lo), Some(hi)) <==> (lo == e.key || ValueLess(lo, e.key)) && (e.key == hi || ValueLess(e.key, hi))
    ensures e.key.IsNumeric() && lo.IsNumeric() && hi.IsNumeric() ==>
              (InRange(e, Some(lo), Some(hi)) <==> lo.AsReal() <= e.key.AsReal() <= hi.AsReal())
    ensures InRange(e, Some(lo), None) <==> lo == e.key || ValueLess(lo, e.key)
    ensures InRange(e, None, Some(hi)) <==> e.key == hi || ValueLess(e.key, hi)
    ensures InRange(e, None, None)
  {
    ValueLessTotal(k, lo, e.key);
    ValueLessTotal(k, e.key, hi);
    hide ValueLess;
    StorageOrder(e.key, lo);
    StorageOrder(hi, e.key);
  }

  /** Record ids of the entries in range, in the run's order. */
  function Scan(es: seq<Entry>, lo: Option<Value>, hi: Option<Value>): seq<RecordID> {
    if es == [] then []
    else
      var e := es[|es| - 1];
      Scan(es[..|es| - 1], lo, hi) + if InRange(e, lo, hi) then [e.rid] else []
  }

  lemma {:induction false} ScanNone(es: seq<Entry>, lo: Option<Value>, hi: Option<Value>)
    requires forall i :: 0 <= i < |es| ==> !InRange(es[i], lo, hi)
    ensures Scan(es, lo, hi) == []
  {
    if es != [] {
      ScanNone(es[..|es| - 1], lo, hi);
    }
  }

  lemma {:induction false} ScanConcat(a: seq<Entry>, b: seq<Entry>, lo: Option<Value>, hi: Option<Value>)
    ensures Scan(a + b, lo, hi) == Scan(a, lo, hi) + Scan(b, lo, hi)
  {
    if b == [] {
      assert a + b == a;
    } else {
      var n := |b| - 1;
      assert (a + b)[..|a + b| - 1] == a + b[..n];
      ScanConcat(a, b[..n], lo, hi);
    }
  }

  lemma ScanSnoc(es: seq<Entry>, e: Entry, lo: Option<Value>, hi: Option<Value>)
    ensures Scan(es + [e], lo, hi) == Scan(es, lo, hi) + if InRange(e, lo, hi) then [e.rid] else []
  {
    assert (es + [e])[..|es|] == es;
  }

  /** Once an entry is above the upper limit, so is the rest of a sorted run. */
  lemma ScanStops(k: Kind, es: seq<Entry>, p: nat, lo: Option<Value>, hi: Option<Value>)
    requires Sorted(es) && AllOk(k, es) && p < |es| && hi.Some? && Comparable(k, hi.value)
    requires ValueLess(hi.value, es[p].key)
    ensures Scan(es, lo, hi) == Scan(es[..p], lo, hi)
  {
    hide Storable, EncodeValue, Scan;
    assert es == es[..p] + es[p..];
    forall i | 0 <= i < |es[p..]| ensures !InRange(es[p..][i], lo, hi) {
      KeysAscend(k, es, p, p + i);
      var x := es[p + i];
      EntryOkKind(k, es[p]); EntryOkKind(k, x);
      ValueLessTotal(k, es[p].key, x.key);
      if ValueLess(es[p].key, x.key) {
        ComparableTransitive(k, hi.value, es[p].key, x.key);
      }
    }
    ScanNone(es[p..], lo, hi);
    ScanConcat(es[..p], es[p..], lo, hi);
  }

  lemma KeysAscend(k: Kind, es: seq<Entry>, i: nat, j: nat)
    requires Sorted(es) && i <= j < |es|
    ensures i == j || ValueLess(es[i].key, es[j].key) || KeyEqual(es[i].key, es[j].key)
  {
    if i < j {
      assert Less(es[i], es[j]);
    }
  }

  /** Entries that precede the least entry with key `lo` are out of range. */
  lemma BelowRange(k: Kind, e: Entry, lo: Value, hi: Option<Value>, b: Entry)
    requires EntryOk(k, e) && EntryOk(k, b) && Comparable(k, lo)
    requires Less(e, b) && !Less(Entry(lo, MIN_RID), b)
    ensures !InRange(e, Some(lo), hi)
  {
    hide Storable;
    assert ValueLess(b.key, lo) by {
      EntryOkKind(k, b);
      assert Storable(b) ==> b.rid.page >= 0;
    }
    ValueLessTotal(k, e.key, b.key);
    if ValueLess(e.key, b.key) {
      ComparableTransitive(k, e.key, b.key, lo);
    }
  }

  // ----- How many nodes a tree has

  /** All nodes of all levels. */
  ghost function Width(levels: seq<Level>): nat {
    if levels == [] then 0 else Width(levels[..|levels| - 1]) + |levels[|levels| - 1].ids|
  }

  ghost function LeafCount(levels: seq<Level>): nat {
    if levels == [] then 0 else |levels[0].ids|
  }

  lemma WidthNone()
    ensures Width([]) == 0
  {
  }

  lemma {:induction false} WidthUpdate(levels: seq<Level>, t: nat, l: Level)
    requires t < |levels|
    ensures Width(levels[t := l]) + |levels[t].ids| == Width(levels) + |l.ids|
  {
    var n := |levels| - 1;
    if t < n {
      WidthUpdate(levels[..n], t, l);
      assert levels[t := l][..n] == levels[..n][t := l];
    } else {
      assert levels[t := l][..n] == levels[..n];
    }
  }

  lemma WidthSnoc(levels: seq<Level>, l: Level)
    ensures Width(levels + [l]) == Width(levels) + |l.ids|
  {
    assert (levels + [l])[..|levels|] == levels;
  }

  /** Nodes with at least two children, if they are inner ones. */
  predicate Branching(v: NodeView) {
    v.leaf || v.entries != []
  }

  ghost predicate AllBranching(nodes: Nodes) {
    forall id :: id in nodes ==> Branching(nodes[id])
  }

  lemma {:induction false} OffsetsDouble(offs: seq<nat>, count: nat, below: nat, j: nat)
    requires OffsOk(offs, count, below) && j <= count
    requires forall i :: 0 <= i < count ==> offs[i] + 2 <= offs[i + 1]
    ensures 2 * j <= offs[j]
  {
    if j > 0 {
      OffsetsDouble(offs, count, below, j - 1);
    }
  }

  /** Each level has at most half as many nodes as the one below. */
  lemma LevelHalves(k: Kind, nodes: Nodes, up: Level, down: Level)
    requires Linked(k, nodes, up, down) && AllBranching(nodes)
    ensures 2 * |up.ids| <= |down.ids|
  {
    hide Less;
    forall j | 0 <= j < |up.ids|
      ensures up.offs[j] + 2 <= up.offs[j + 1]
    {
      assert InnerOk(nodes, up, down, j);
      var id := up.ids[j];
      assert id in nodes;
      assert AllBranching(nodes);
      assert Branching(nodes[id]);
    }
    OffsetsDouble(up.offs, |up.ids|, |down.ids|, |up.ids|);
  }

  function PowerOfTwo(n: nat): (p: nat)
    ensures p > 0
  {
    if n == 0 then 1 else 2 * PowerOfTwo(n - 1)
  }

  /** The upper levels together have fewer nodes than there are leaves, and the number of
      levels is logarithmic. */
  lemma {:induction false} WidthLinear(k: Kind, nodes: Nodes, levels: seq<Level>, n: nat)
    requires 0 < n <= |levels| && AllBranching(nodes)
    requires forall t :: 0 < t < |levels| ==> Linked(k, nodes, levels[t], levels[t - 1])
    ensures Width(levels[..n]) + |levels[n - 1].ids| <= 2 * |levels[0].ids|
    ensures PowerOfTwo(n - 1) * |levels[n - 1].ids| <= |levels[0].ids|
  {
    hide Linked, AllBranching;
    if n > 1 {
      WidthLinear(k, nodes, levels, n - 1);
      LevelHalves(k, nodes, levels[n - 1], levels[n - 2]);
      assert levels[..n][..n - 1] == levels[..n - 1];
      Doubling(PowerOfTwo(n - 2), |levels[n - 1].ids|, |levels[n - 2].ids|);
    } else {
      assert levels[..1][..0] == [];
    }
  }

  lemma Doubling(p: nat, a: nat, b: nat)
    requires 2 * a <= b
    ensures 2 * p * a <= p * b
  {
  }

  /** A tree has fewer than two nodes per leaf, and with under 2^31 leaves at most 31 levels. */
  lemma TreeWidth(k: Kind, nodes: Nodes, levels: seq<Level>, rootId: int)
    requires TreeOk(k, nodes, levels, rootId) && AllBranching(nodes)
    ensures Width(levels) < 2 * LeafCount(levels)
    ensures LeafCount(levels) < 0x8000_0000 ==> |levels| <= 31
  {
    hide Linked, LeavesOk, AllBranching, PowerOfTwo;
    var n := |levels|;
    assert |levels[n - 1].ids| == 1;
    WidthLinear(k, nodes, levels, n);
    TimesOne(PowerOfTwo(n - 1), |levels[n - 1].ids|);
    assert levels[..n] == levels;
    hide Width, TreeOk;
    FewLevels(n - 1, LeafCount(levels));
  }

  lemma TimesOne(p: nat, a: nat)
    requires a == 1
    ensures p * a == p
  {
  }

  lemma FewLevels(n: nat, leaves: nat)
    requires PowerOfTwo(n) <= leaves
    ensures leaves < 0x8000_0000 ==> n < 31
  {
    hide PowerOfTwo;
    if n >= 31 {
      PowerGrows(31, n);
      PowerIs31();
    }
  }

  lemma {:induction false} PowerGrows(m: nat, n: nat)
    requires m <= n
    ensures PowerOfTwo(m) <= PowerOfTwo(n)
  {
    if m < n {
      PowerGrows(m, n - 1);
    }
  }

  lemma PowerIs31()
    ensures PowerOfTwo(31) == 0x8000_0000
  {
    assert PowerOfTwo(8) == 256;
    assert PowerOfTwo(16) == 0x1_0000;
    assert PowerOfTwo(24) == 0x100_0000;
  }
}
