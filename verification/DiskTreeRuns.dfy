/** Whole runs of the page-resident B+ tree, and why its entries must be small. */
module DiskTreeRuns {
  import opened Values
  import opened Bytes
  import opened NodeCodec
  import opened DiskTreeModel
  import opened DiskBPlusTree

  datatype Op = Add(e: Entry) | Remove(e: Entry)

  /** The entries live after a run: added and not removed since. */
  function LiveAfter(ops: seq<Op>): set<Entry> {
    if ops == [] then {}
    else
      var before := LiveAfter(ops[..|ops| - 1]);
      match ops[|ops| - 1]
      case Add(e) => before + {e}
      case Remove(e) => before - {e}
  }

  ghost predicate OpsOk(k: Kind, ops: seq<Op>) {
    forall i :: 0 <= i < |ops| ==> EntryOk(k, ops[i].e)
  }

  /** `run` lists these entries in strictly increasing (key, record id) order. */
  ghost predicate Lists(run: seq<Entry>, live: set<Entry>) {
    Sorted(run) && forall e :: e in run <==> e in live
  }

  lemma RunLists(t: DiskBPlusTree)
    requires t.Valid()
    ensures Lists(t.Run(), t.Live()) && AllOk(t.kind, t.Run())
  {
    hide Less, EntryOk;
    if t.rootId != -1 {
      LeavesKnown(t.kind, t.nodes, t.levels[0]);
      var ids := t.levels[0].ids;
      assert ids[..|ids|] == ids;
      FlattenSorted(t.kind, t.nodes, t.levels[0], |ids|);
    }
  }

  /** How many insertions a run makes. */
  function Adds(ops: seq<Op>): (n: nat)
    ensures n <= |ops|
  {
    if ops == [] then 0 else Adds(ops[..|ops| - 1]) + if ops[|ops| - 1].Add? then 1 else 0
  }

  lemma {:induction false} AddsMonotone(ops: seq<Op>, n: nat)
    requires n <= |ops|
    ensures Adds(ops[..n]) <= Adds(ops)
    decreases |ops|
  {
    if n < |ops| {
      AddsMonotone(ops[..|ops| - 1], n);
      assert ops[..|ops| - 1][..n] == ops[..n];
    } else {
      assert ops[..n] == ops;
    }
  }

  /** A tree has fewer than two pages per leaf, and at most 31 levels. */
  lemma PagesLinear(t: DiskBPlusTree)
    requires t.Valid() && LeafCount(t.levels) < 0x8000_0000
    ensures Width(t.levels) <= 2 * LeafCount(t.levels) && |t.levels| <= 31
  {
    hide TreeOk, Heights, Fits, PageImage, Width;
    if t.rootId != -1 {
      TreeWidth(t.kind, t.nodes, t.levels, t.rootId);
    } else {
      WidthNone();
    }
  }

  method Apply(t: DiskBPlusTree, op: Op)
    requires t.Valid() && EntryOk(t.kind, op.e)
    requires t.numPages + |t.levels| + 1 <= 0x7FFF_FFFF
    modifies t
    ensures t.Valid()
    ensures t.Live() == (if op.Add? then old(t.Live()) + {op.e} else old(t.Live()) - {op.e})
    ensures LeafCount(t.levels) <= old(LeafCount(t.levels)) + if op.Add? then 1 else 0
    ensures t.numPages - Width(t.levels) == old(t.numPages - Width(t.levels))
  {
    hide EntryOk;
    match op {
      case Add(e) =>
        t.Insert(e.key, e.rid);
      case Remove(e) =>
        EntryOkKind(t.kind, e);
        var _ := t.Erase(e.key, e.rid);
    }
  }

  /** After any run of inserts and erases a range scan returns exactly the record ids of
      the live entries in range, ordered by (key, record id), however often leaves, inner
      nodes and the root have split. A run may make a billion insertions: a tree takes at most
      two pages per insertion, and page ids have 32 bits. */
  method ScanAfter(kind: Kind, ops: seq<Op>, lo: Option<Value>, hi: Option<Value>)
    returns (out: seq<RecordID>)
    requires OpsOk(kind, ops) && 2 * Adds(ops) + 32 <= 0x7FFF_FFFF
    requires lo.Some? ==> Comparable(kind, lo.value)
    requires hi.Some? ==> Comparable(kind, hi.value)
    ensures exists run :: Lists(run, LiveAfter(ops)) && AllOk(kind, run) && out == Scan(run, lo, hi)
    ensures forall rid :: rid in out <==> exists e :: e in LiveAfter(ops) && InRange(e, lo, hi) && e.rid == rid
  {
    hide OfKind, Comparable, EntryOk, Lists, Scan, TreeOk, Heights, Flatten, AllOk, Fits, PageImage, Width, AllBranching;
    var t := new DiskBPlusTree(kind, map[], 0);
    WidthNone();
    assert ops[..0] == [];
    var i := 0;
    while i < |ops|
      invariant 0 <= i <= |ops|
      invariant fresh(t) && t.Valid() && t.kind == kind
      invariant t.Live() == LiveAfter(ops[..i])
      invariant LeafCount(t.levels) <= Adds(ops[..i]) && t.numPages == Width(t.levels)
    {
      assert ops[..i + 1][..i] == ops[..i];
      AddsMonotone(ops, i);
      PagesLinear(t);
      Apply(t, ops[i]);
      i := i + 1;
    }
    assert ops[..i] == ops;
    RunLists(t);
    out := t.RangeScan(lo, hi);
    ScanHolds(t.Run(), LiveAfter(ops), lo, hi);
  }

  lemma ScanHolds(run: seq<Entry>, live: set<Entry>, lo: Option<Value>, hi: Option<Value>)
    requires Lists(run, live)
    ensures forall rid :: rid in Scan(run, lo, hi) <==> exists e :: e in live && InRange(e, lo, hi) && e.rid == rid
  {
    hide Scan, InRange, Sorted;
    forall rid: RecordID
      ensures rid in Scan(run, lo, hi) <==> exists e :: e in live && InRange(e, lo, hi) && e.rid == rid
    {
      ScanMembers(run, lo, hi, rid);
    }
  }

  /** The listing is unique, so the scan's result depends on the live entries alone. */
  lemma ScanDetermined(k: Kind, live: set<Entry>, a: seq<Entry>, b: seq<Entry>, lo: Option<Value>, hi: Option<Value>)
    requires Lists(a, live) && Lists(b, live) && AllOk(k, a) && AllOk(k, b)
    ensures Scan(a, lo, hi) == Scan(b, lo, hi)
  {
    SortedUnique(k, a, b);
  }

  /** A scan lists a record id exactly when a live entry in range holds it. */
  lemma {:induction false} ScanMembers(run: seq<Entry>, lo: Option<Value>, hi: Option<Value>, rid: RecordID)
    ensures rid in Scan(run, lo, hi) <==> exists e :: e in run && InRange(e, lo, hi) && e.rid == rid
  {
    if run != [] {
      var n := |run| - 1;
      ScanMembers(run[..n], lo, hi, rid);
      assert run == run[..n] + [run[n]];
      assert forall e :: e in run <==> e in run[..n] || e == run[n];
    }
  }

  // ----- The entry cap is exact

  lemma {:induction false} EqualSizes(es: seq<Entry>, size: nat)
    requires forall i :: 0 <= i < |es| ==> Storable(es[i]) && EntrySize(es[i]) == size
    ensures AllStorable(es) && EntriesSize(es) == |es| * size
  {
    hide Storable, EntrySize;
    if es != [] {
      EqualSizes(es[..|es| - 1], size);
    }
  }

  function TextEntry(c: char, len: nat, slot: nat): Entry {
    Entry(Text(seq(len, _ => c)), RecordID(0, slot))
  }

  lemma TextEntrySize(c: char, len: nat, slot: nat)
    requires c as int < 256 && len < 1000 && slot < 1000
    ensures Storable(TextEntry(c, len, slot)) && EntrySize(TextEntry(c, len, slot)) == len + 11
  {
  }

  lemma NullEntrySize(slot: nat)
    requires slot < 1000
    ensures Storable(Entry(Null, RecordID(0, slot))) && EntrySize(Entry(Null, RecordID(0, slot))) == 11
  {
  }

  lemma TextEntryLess(c: char, len: nat, slot: nat, c': char, len': nat, slot': nat)
    requires 0 < len && 0 < len' && (c < c' || (c == c' && len == len' && slot < slot'))
    ensures Less(TextEntry(c, len, slot), TextEntry(c', len', slot'))
  {
    if c == c' {
      CompareTextZero(seq(len, _ => c), seq(len', _ => c'));
      assert seq(len, _ => c) == seq(len', _ => c');
    }
  }

  /** A sorted leaf, its entries of at most `cap` bytes, that one of them has made too large. */
  ghost predicate Overfull(es: seq<Entry>, cap: nat) {
    && AllStorable(es) && Sorted(es) && Measure(es, true) > PAGE_SIZE
    && (forall i :: 0 <= i < |es| ==> OfKind(KText, es[i].key) && SizeAtMost(es[i], cap))
    && exists i :: 0 <= i < |es| && WasFitting(es, i)
  }

  predicate SizeAtMost(e: Entry, cap: nat) {
    Storable(e) && EntrySize(e) <= cap
  }

  ghost predicate WasFitting(es: seq<Entry>, i: nat)
    requires i < |es|
  {
    var rest := es[..i] + es[i + 1..];
    AllStorable(rest) && Measure(rest, true) <= PAGE_SIZE
  }

  /** Splitting by count gives two leaves that fit. */
  ghost predicate HalvesFitPages(es: seq<Entry>) {
    var mid := |es| / 2;
    && AllStorable(es[..mid]) && Measure(es[..mid], true) <= PAGE_SIZE
    && AllStorable(es[mid..]) && Measure(es[mid..], true) <= PAGE_SIZE
  }

  /** Every split of an overfull leaf fits its pages exactly when no entry may exceed 209 bytes. */
  lemma CapIsExact(cap: nat)
    ensures (forall es :: Overfull(es, cap) ==> HalvesFitPages(es)) <==> cap <= MAX_ENTRY
  {
    hide Overfull, HalvesFitPages;
    if cap <= MAX_ENTRY {
      forall es | Overfull(es, cap)
        ensures HalvesFitPages(es)
      {
        SmallCapFits(es, cap);
      }
    } else {
      var es, e := LargerEntryOverflows();
      CapGrows(es + [e], MAX_ENTRY + 1, cap);
    }
  }

  lemma SmallCapFits(es: seq<Entry>, cap: nat)
    requires Overfull(es, cap) && cap <= MAX_ENTRY
    ensures HalvesFitPages(es)
  {
    hide EntrySize, EntriesSize, Storable, Sorted, AllStorable, OfKind;
    var i :| 0 <= i < |es| && WasFitting(es, i);
    assert SizeAtMost(es[i], cap);
    WithoutOne(es, i);
    assert SmallEntries(es) by {
      assert forall j :: 0 <= j < |es| ==> SizeAtMost(es[j], cap);
    }
    LeafSplitFits(es);
  }

  lemma WithoutOne(es: seq<Entry>, i: nat)
    requires AllStorable(es) && i < |es|
    ensures AllStorable(es[..i] + es[i + 1..]) && EntriesSize(es) == EntriesSize(es[..i] + es[i + 1..]) + EntrySize(es[i])
  {
    hide EntrySize, EntriesSize, Storable;
    var a, z := es[..i], es[i + 1..];
    assert es == a + [es[i]] + z;
    SingleSize(es[i]);
    EntriesSizeConcat(a, [es[i]]);
    EntriesSizeConcat(a + [es[i]], z);
    EntriesSizeConcat(a, z);
  }

  lemma CapGrows(es: seq<Entry>, cap: nat, cap': nat)
    requires Overfull(es, cap) && cap <= cap'
    ensures Overfull(es, cap')
  {
    hide EntrySize, EntriesSize, Storable, Sorted, AllStorable, OfKind, WasFitting;
    forall i | 0 <= i < |es|
      ensures SizeAtMost(es[i], cap')
    {
      assert SizeAtMost(es[i], cap);
    }
  }

  /** Keys of a fixed size take at most nineteen bytes, so only text keys can be too large. */
  lemma FixedSizeEntries(k: Kind, e: Entry)
    requires k != KText && OfKind(k, e.key) && Storable(e)
    ensures EntrySize(e) <= 19
  {
  }

  /** One byte more than MAX_ENTRY is too much: a leaf of entries within the cap that fills its
      page to the last byte, and one 210-byte entry whose insertion leaves the right half of the
      split larger than a page. */
  lemma LargerEntryOverflows() returns (es: seq<Entry>, e: Entry)
    ensures es == Nulls(19) + (Texts(18) + [TextEntry('b', 196, 0)]) && e == TextEntry('c', 199, 0)
    ensures Overfull(es + [e], MAX_ENTRY + 1) && !HalvesFitPages(es + [e])
    ensures AllOk(KText, es) && Sorted(es) && Measure(es, true) == PAGE_SIZE
  {
    hide EntrySize, EntriesSize, Storable, Less, TextEntry;
    var nulls, texts := Nulls(19), Texts(18);
    var b := TextEntry('b', 196, 0);
    e := TextEntry('c', 199, 0);
    es := nulls + (texts + [b]);
    var all := es + [e];
    OverflowSizes(nulls, texts, b, e);
    OverflowSorted(nulls, texts, b, e);
    OverflowKinds(es, e);
    assert all == nulls + texts + [b, e];
    assert all[..|es|] + all[|es| + 1..] == es && all[|es|] == e;
    SingleSize(e);
    EntriesSizeConcat(es, [e]);
    forall i | 0 <= i < |all|
      ensures SizeAtMost(all[i], MAX_ENTRY + 1)
    {
      assert i < |es| ==> all[i] == es[i];
    }
    assert WasFitting(all, |es|);
    assert all[|all| / 2..] == texts + [b] + [e];
    assert forall i, j :: 0 <= i < j < |es| ==> es[i] == all[i] && es[j] == all[j];
  }

  lemma OverflowKinds(es: seq<Entry>, e: Entry)
    requires es == Nulls(19) + (Texts(18) + [TextEntry('b', 196, 0)]) && e == TextEntry('c', 199, 0)
    ensures forall i :: 0 <= i < |es + [e]| ==> OfKind(KText, (es + [e])[i].key)
  {
  }

  /** That leaf is the root of a tree, after a run of 38 insertions. */
  method FillLeaf() returns (t: DiskBPlusTree, ghost es: seq<Entry>, ghost e: Entry)
    ensures fresh(t) && t.Valid() && t.kind == KText && |t.levels| == 1 && t.Run() == es
    ensures Measurable(es) && Overfull(es + [e], MAX_ENTRY + 1) && !HalvesFitPages(es + [e])
  {
    hide EntrySize, EntriesSize, Storable, Less, TextEntry, Nulls, Texts, Overfull, HalvesFitPages, TreeOk, Heights, Flatten, Fits, PageImage, Width, AllBranching;
    es, e := LargerEntryOverflows();
    var run := Nulls(19) + (Texts(18) + [TextEntry('b', 196, 0)]);
    t := new DiskBPlusTree(KText, map[], 0);
    WidthNone();
    EmptyRun(t);
    var i := 0;
    while i < |run|
      invariant 0 <= i <= |run| && fresh(t) && t.Valid() && t.kind == KText
      invariant t.Run() == run[..i] && t.numPages == Width(t.levels) && LeafCount(t.levels) <= i
      invariant |t.levels| == if i == 0 then 0 else 1
    {
      PagesLinear(t);
      assert EntryOk(KText, run[i]);
      PrefixFits(run, i);
      EmptyRun(t);
      ghost var live := t.Live();
      t.Insert(run[i].key, run[i].rid);
      PrefixRun(t, run, i, live);
      EmptyRun(t);
      i := i + 1;
    }
    assert run[..i] == run;
  }

  lemma EmptyRun(t: DiskBPlusTree)
    requires t.Valid()
    ensures t.Live() == {} ==> t.Run() == []
    ensures t.Run() != [] ==> t.rootId != -1 && |t.levels| > 0
  {
    hide TreeOk, Heights, Flatten, Fits, PageImage, AllBranching;
    if t.Run() != [] {
      assert t.Run()[0] in t.Live();
      RootHas(t);
    }
  }

  lemma RootHas(t: DiskBPlusTree)
    requires t.Valid() && t.rootId != -1
    ensures |t.levels| > 0
  {
  }

  /** The entries fill a page to the last byte. */
  ghost predicate Measurable(es: seq<Entry>) {
    AllStorable(es) && Measure(es, true) == PAGE_SIZE
  }

  lemma PrefixFits(run: seq<Entry>, i: nat)
    requires AllOk(KText, run) && AllStorable(run) && i < |run|
    ensures AllStorable(run[..i]) && EntriesSize(run[..i]) + EntrySize(run[i]) <= EntriesSize(run)
    ensures Measure(run, true) <= PAGE_SIZE ==> forall levels: seq<Level> :: |levels| == 1 ==> OneLeafTakes(levels, run[..i], run[i])
  {
    hide EntrySize, EntriesSize, Storable;
    EntriesSizeSnoc(run, i);
    EntriesSizePrefix(run, i + 1);
  }

  lemma PrefixRun(t: DiskBPlusTree, run: seq<Entry>, i: nat, live: set<Entry>)
    requires t.Valid() && t.kind == KText && AllOk(KText, run) && Sorted(run) && i < |run|
    requires live == (set e | e in run[..i]) && t.Live() == live + {run[i]}
    ensures t.Run() == run[..i + 1]
  {
    hide Less, EntryOk, TreeOk, Heights, Flatten, Fits, PageImage, AllBranching;
    RunLists(t);
    assert run[..i + 1] == run[..i] + [run[i]];
    forall e
      ensures e in t.Run() <==> e in run[..i + 1]
    {
      assert e in t.Run() <==> e in t.Live();
    }
    SortedUnique(KText, t.Run(), run[..i + 1]);
  }

  function Nulls(n: nat): (r: seq<Entry>)
    ensures |r| == n && forall i :: 0 <= i < n ==> r[i] == Entry(Null, RecordID(0, i))
  {
    seq(n, i => Entry(Null, RecordID(0, i)))
  }

  function Texts(n: nat): (r: seq<Entry>)
    ensures |r| == n && forall i :: 0 <= i < n ==> r[i] == TextEntry('a', 193, i)
  {
    seq(n, i requires 0 <= i => TextEntry('a', 193, i))
  }

  lemma OverflowSizes(nulls: seq<Entry>, texts: seq<Entry>, b: Entry, e: Entry)
    requires nulls == Nulls(19) && texts == Texts(18)
    requires b == TextEntry('b', 196, 0) && e == TextEntry('c', 199, 0)
    ensures var es := nulls + (texts + [b]);
      && AllStorable(es) && EntriesSize(es) == PAGE_SIZE - HEADER
      && (forall i :: 0 <= i < |es| ==> Storable(es[i]) && EntrySize(es[i]) <= MAX_ENTRY)
      && Storable(e) && EntrySize(e) == MAX_ENTRY + 1
      && AllStorable(texts + [b] + [e]) && EntriesSize(texts + [b] + [e]) == PAGE_SIZE - HEADER + 1
  {
    hide EntrySize, EntriesSize, Storable, TextEntry;
    forall i | 0 <= i < 19 ensures Storable(nulls[i]) && EntrySize(nulls[i]) == 11 {
      NullEntrySize(i);
    }
    forall i | 0 <= i < 18 ensures Storable(texts[i]) && EntrySize(texts[i]) == 204 {
      TextEntrySize('a', 193, i);
    }
    TextEntrySize('b', 196, 0);
    TextEntrySize('c', 199, 0);
    EqualSizes(nulls, 11);
    EqualSizes(texts, 204);
    SingleSize(b);
    SingleSize(e);
    EntriesSizeConcat(texts, [b]);
    EntriesSizeConcat(nulls, texts + [b]);
    EntriesSizeConcat(texts + [b], [e]);
  }

  lemma OverflowSorted(nulls: seq<Entry>, texts: seq<Entry>, b: Entry, e: Entry)
    requires forall i :: 0 <= i < |nulls| ==> nulls[i] == Entry(Null, RecordID(0, i))
    requires forall i :: 0 <= i < |texts| ==> texts[i] == TextEntry('a', 193, i)
    requires b == TextEntry('b', 196, 0) && e == TextEntry('c', 199, 0)
    ensures Sorted(nulls + texts + [b, e])
  {
    forall i, j | 0 <= i < j < |texts| ensures Less(texts[i], texts[j]) {
      TextEntryLess('a', 193, i, 'a', 193, j);
    }
    forall i | 0 <= i < |texts| ensures Less(texts[i], b) && Less(texts[i], e) {
      TextEntryLess('a', 193, i, 'b', 196, 0);
      TextEntryLess('a', 193, i, 'c', 199, 0);
    }
    TextEntryLess('b', 196, 0, 'c', 199, 0);
    forall i, j | 0 <= i < j < |nulls| ensures Less(nulls[i], nulls[j]) {
    }
    forall i, x | 0 <= i < |nulls| && (x in texts || x == b || x == e) ensures Less(nulls[i], x) {
      assert x.key.Text?;
    }
    hide Less, TextEntry;
  }
}
