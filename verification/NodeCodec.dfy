/** Index entries, their order, and the byte image of one B+ tree node. */
module NodeCodec {
  import opened Values
  import opened Bytes
  import opened Doubles

  const HEADER: nat := 8

  /** One index entry: the indexed value together with the row that holds it. */
  datatype Entry = Entry(key: Value, rid: RecordID)

  datatype NodeView = NodeView(leaf: bool, nextLeaf: int, entries: seq<Entry>, children: seq<int>)

  const MIN_RID := RecordID(-1, -1)

  predicate RidLess(a: RecordID, b: RecordID) {
    if a.page != b.page then a.page < b.page else a.slot < b.slot
  }

  predicate KeyEqual(a: Value, b: Value) {
    !ValueLess(a, b) && !ValueLess(b, a)
  }

  /** Composite order: by key, ties broken by record id. */
  predicate Less(a: Entry, b: Entry) {
    if ValueLess(a.key, b.key) then true
    else if ValueLess(b.key, a.key) then false
    else RidLess(a.rid, b.rid)
  }

  /** Entries of one index are ordered by key, those of one key by page and then by slot. */
  lemma LessMeans(k: Kind, a: Entry, b: Entry)
    requires OfKind(k, a.key) && OfKind(k, b.key)
    ensures Less(a, b) <==>
      (ValueLess(a.key, b.key) || (a.key == b.key && (a.rid.page < b.rid.page || (a.rid.page == b.rid.page && a.rid.slot < b.rid.slot))))
  {
    ValueLessTotal(k, a.key, b.key);
  }

  lemma LessTotal(k: Kind, a: Entry, b: Entry)
    requires OfKind(k, a.key) && OfKind(k, b.key)
    ensures !(Less(a, b) && Less(b, a))
    ensures a == b <==> !Less(a, b) && !Less(b, a)
  {
    ValueLessTotal(k, a.key, b.key);
  }

  lemma LessTransitive(k: Kind, a: Entry, b: Entry, c: Entry)
    requires OfKind(k, a.key) && OfKind(k, b.key) && OfKind(k, c.key)
    requires Less(a, b) && Less(b, c)
    ensures Less(a, c)
  {
    ValueLessTotal(k, a.key, b.key);
    ValueLessTotal(k, b.key, c.key);
    ValueLessTotal(k, a.key, c.key);
    if ValueLess(a.key, b.key) && ValueLess(b.key, c.key) {
      ValueLessTransitive(k, a.key, b.key, c.key);
    }
  }

  // ----- Byte images

  predicate IsByteString(s: string) {
    forall i :: 0 <= i < |s| ==> s[i] as int < 256
  }

  function TextBytes(s: string): (r: seq<Byte>)
    requires IsByteString(s)
    ensures |r| == |s|
  {
    seq(|s|, i requires 0 <= i < |s| => s[i] as int)
  }

  function BytesText(d: seq<Byte>): (r: string)
    ensures |r| == |d|
  {
    seq(|d|, i requires 0 <= i < |d| => d[i] as char)
  }

  lemma TextRoundTrip(s: string)
    requires IsByteString(s)
    ensures BytesText(TextBytes(s)) == s
  {
  }

  /** The values the source's types can hold: 64-bit integers, finite doubles, byte strings. */
  predicate Encodable(v: Value) {
    match v
    case Null => true
    case Int(i) => IsInt64(i)
    case Bool(_) => true
    case Text(t) => IsByteString(t)
    case Double(d) => IsDouble(d)
  }

  function EncodeValue(v: Value): (r: seq<Byte>)
    requires Encodable(v)
    ensures |r| >= 1
  {
    match v
    case Null => [0]
    case Int(i) => [1] + PutI64(i)
    case Bool(b) => [2, if b then 1 else 0]
    case Text(t) => [3] + TextBytes(t)
    case Double(d) => [4] + PutUnsigned(ToBits(d), 8)
  }

  /** The first eight bytes of a body; a short one reads as if padded with zero bytes. */
  function EightBytes(d: seq<Byte>): (r: seq<Byte>)
    requires d != []
    ensures |r| == 8
  {
    if |d| >= 9 then d[1..9] else d[1..] + seq(9 - |d|, _ => 0)
  }

  /** Decoding is total on bytes. */
  function DecodeValue(d: seq<Byte>): Value {
    if d == [] then Null
    else if d[0] == 1 then
      Int(GetI64(EightBytes(d)))
    else if d[0] == 2 then Bool(|d| > 1 && d[1] != 0)
    else if d[0] == 3 then Text(BytesText(d[1..]))
    else if d[0] == 4 then Double(FromBits(GetUnsigned(EightBytes(d))))
    else Null
  }

  lemma ValueRoundTrip(v: Value)
    requires Encodable(v)
    ensures DecodeValue(EncodeValue(v)) == v
  {
    match v
    case Null =>
    case Bool(_) =>
    case Int(i) =>
      var d := EncodeValue(v);
      assert d[1..9] == PutI64(i);
      I64RoundTrip(i);
    case Text(t) =>
      assert EncodeValue(v)[1..] == TextBytes(t);
      TextRoundTrip(t);
    case Double(x) =>
      DoubleRoundTrip(x);
  }

  lemma DoubleRoundTrip(x: real)
    requires IsDouble(x)
    ensures DecodeValue(EncodeValue(Double(x))) == Double(x)
  {
    hide IsDouble, FromBits, ToBits, PutUnsigned, GetUnsigned, Power256;
    var d := EncodeValue(Double(x));
    assert d[1..9] == PutUnsigned(ToBits(x), 8);
    PowerIsWord();
    UnsignedRoundTrip(ToBits(x), 8);
    BitsRoundTrip(x);
  }

  // ----- Nodes

  /** Entries of one index: keys of its column's kind, non-negative 32-bit record ids. */
  predicate Storable(e: Entry) {
    && Encodable(e.key) && |EncodeValue(e.key)| < 0x1_0000
    && 0 <= e.rid.page < 0x8000_0000 && 0 <= e.rid.slot < 0x8000_0000
  }

  /** Bytes one entry takes in a node: key length, key, record id. */
  function EntrySize(e: Entry): (n: nat)
    requires Storable(e)
    ensures n >= 11
  {
    2 + |EncodeValue(e.key)| + 8
  }

  predicate AllStorable(es: seq<Entry>) {
    forall i :: 0 <= i < |es| ==> Storable(es[i])
  }

  function EntriesSize(es: seq<Entry>): nat
    requires AllStorable(es)
  {
    if es == [] then 0 else EntriesSize(es[..|es| - 1]) + EntrySize(es[|es| - 1])
  }

  /** Encoded size of a node with these entries. */
  function Measure(es: seq<Entry>, leaf: bool): nat
    requires AllStorable(es)
  {
    HEADER + EntriesSize(es) + if leaf then 0 else 4 * (|es| + 1)
  }

  function EntryBytes(e: Entry): (r: seq<Byte>)
    requires Storable(e)
    ensures |r| == EntrySize(e)
  {
    PutU16(|EncodeValue(e.key)|) + EncodeValue(e.key) + PutI32(e.rid.page) + PutI32(e.rid.slot)
  }

  function EntriesBytes(es: seq<Entry>): (r: seq<Byte>)
    requires AllStorable(es)
    ensures |r| == EntriesSize(es)
  {
    if es == [] then [] else EntriesBytes(es[..|es| - 1]) + EntryBytes(es[|es| - 1])
  }

  function ChildrenBytes(cs: seq<int>): (r: seq<Byte>)
    requires forall i :: 0 <= i < |cs| ==> IsInt32(cs[i])
    ensures |r| == 4 * |cs|
  {
    if cs == [] then [] else ChildrenBytes(cs[..|cs| - 1]) + PutI32(cs[|cs| - 1])
  }

  /** A node that one page can hold: storable fields, matching child count, size at most a page. */
  predicate Fits(v: NodeView) {
    && AllStorable(v.entries)
    && Measure(v.entries, v.leaf) <= PAGE_SIZE
    && IsInt32(v.nextLeaf)
    && (v.leaf ==> v.children == [])
    && (!v.leaf ==> |v.children| == |v.entries| + 1)
    && (forall i :: 0 <= i < |v.children| ==> IsInt32(v.children[i]))
  }

  lemma {:induction false} EntriesSizeAtLeast(es: seq<Entry>)
    requires AllStorable(es)
    ensures EntriesSize(es) >= 11 * |es|
  {
    if es != [] {
      EntriesSizeAtLeast(es[..|es| - 1]);
    }
  }

  function HeaderBytes(v: NodeView): (r: seq<Byte>)
    requires IsInt32(v.nextLeaf) && |v.entries| < 0x1_0000
    ensures |r| == HEADER
  {
    [if v.leaf then 1 else 0, 0] + PutU16(|v.entries|) + PutI32(v.nextLeaf)
  }

  lemma FitsCount(v: NodeView)
    requires Fits(v)
    ensures |v.entries| < 0x1_0000
  {
    EntriesSizeAtLeast(v.entries);
  }

  /** The meaningful bytes of a node's page; the rest of the page is zero. */
  function NodeBytes(v: NodeView): (r: seq<Byte>)
    requires Fits(v)
    ensures |r| == Measure(v.entries, v.leaf)
  {
    FitsCount(v);
    HeaderBytes(v) + EntriesBytes(v.entries) + ChildrenBytes(v.children)
  }

  function PageImage(v: NodeView): (r: seq<Byte>)
    requires Fits(v)
    ensures |r| == PAGE_SIZE
  {
    NodeBytes(v) + Zeros(PAGE_SIZE - |NodeBytes(v)|)
  }

  // ----- Writing a node into a page, and reading it back

  lemma EntriesNone()
    ensures EntriesSize([]) == 0 && EntriesBytes([]) == [] && ChildrenBytes([]) == []
  {
  }

  lemma EntriesSizeSnoc(es: seq<Entry>, i: nat)
    requires AllStorable(es) && i < |es|
    ensures EntriesSize(es[..i + 1]) == EntriesSize(es[..i]) + EntrySize(es[i])
    ensures EntriesBytes(es[..i + 1]) == EntriesBytes(es[..i]) + EntryBytes(es[i])
  {
    assert es[..i + 1][..i] == es[..i];
  }

  lemma ChildrenBytesSnoc(cs: seq<int>, i: nat)
    requires forall i :: 0 <= i < |cs| ==> IsInt32(cs[i])
    requires i < |cs|
    ensures ChildrenBytes(cs[..i + 1]) == ChildrenBytes(cs[..i]) + PutI32(cs[i])
  {
    assert cs[..i + 1][..i] == cs[..i];
  }

  lemma {:induction false} EntriesSizePrefix(es: seq<Entry>, i: nat)
    requires AllStorable(es) && i <= |es|
    ensures EntriesSize(es[..i]) <= EntriesSize(es)
    decreases |es| - i
  {
    if i < |es| {
      EntriesSizeSnoc(es, i);
      EntriesSizePrefix(es, i + 1);
    } else {
      assert es[..i] == es;
    }
  }

  /** Extends the written part of a page, whose unwritten part is zero. */
  method Append(d: array<Byte>, pos: nat, bytes: seq<Byte>, ghost written: seq<Byte>)
    requires pos == |written| && pos + |bytes| <= d.Length
    requires d[..] == written + Zeros(d.Length - pos)
    modifies d
    ensures d[..] == (written + bytes) + Zeros(d.Length - pos - |bytes|)
  {
    Put(d, pos, bytes);
  }

  method WriteEntries(d: array<Byte>, view: NodeView) returns (pos: nat)
    requires Fits(view) && |view.entries| < 0x1_0000
    requires d.Length == PAGE_SIZE && d[..] == HeaderBytes(view) + Zeros(PAGE_SIZE - HEADER)
    modifies d
    ensures pos == HEADER + EntriesSize(view.entries)
    ensures d[..] == HeaderBytes(view) + EntriesBytes(view.entries) + Zeros(PAGE_SIZE - pos)
  {
    hide EntrySize, EntryBytes, HeaderBytes, Storable, PutI32, EntriesSize, EntriesBytes, ChildrenBytes, Zeros;
    EntriesNone();
    pos := HEADER;
    var i := 0;
    assert view.entries[..0] == [] && HeaderBytes(view) == HeaderBytes(view) + [];
    while i < |view.entries|
      invariant 0 <= i <= |view.entries|
      invariant pos == HEADER + EntriesSize(view.entries[..i]) <= PAGE_SIZE
      invariant d[..] == HeaderBytes(view) + EntriesBytes(view.entries[..i]) + Zeros(PAGE_SIZE - pos)
    {
      EntriesSizeSnoc(view.entries, i);
      EntriesSizePrefix(view.entries, i + 1);
      ghost var written := HeaderBytes(view) + EntriesBytes(view.entries[..i]);
      Append(d, pos, EntryBytes(view.entries[i]), written);
      assert written + EntryBytes(view.entries[i]) == HeaderBytes(view) + EntriesBytes(view.entries[..i + 1]);
      pos := pos + EntrySize(view.entries[i]);
      i := i + 1;
    }
    assert view.entries[..i] == view.entries;
  }

  method WriteChildren(d: array<Byte>, view: NodeView, start: nat)
    requires Fits(view) && !view.leaf && |view.entries| < 0x1_0000
    requires d.Length == PAGE_SIZE && start == HEADER + EntriesSize(view.entries)
    requires d[..] == HeaderBytes(view) + EntriesBytes(view.entries) + Zeros(PAGE_SIZE - start)
    modifies d
    ensures d[..] == PageImage(view)
  {
    hide EntrySize, EntryBytes, HeaderBytes, Storable, PutI32, EntriesSize, EntriesBytes, ChildrenBytes, Zeros;
    EntriesNone();
    ghost var front := HeaderBytes(view) + EntriesBytes(view.entries);
    assert view.children[..0] == [] && front == front + [];
    var pos := start;
    var c := 0;
    while c < |view.children|
      invariant 0 <= c <= |view.children|
      invariant pos == start + 4 * c <= PAGE_SIZE
      invariant d[..] == front + ChildrenBytes(view.children[..c]) + Zeros(PAGE_SIZE - pos)
    {
      ChildrenBytesSnoc(view.children, c);
      ghost var written := front + ChildrenBytes(view.children[..c]);
      Append(d, pos, PutI32(view.children[c]), written);
      assert written + PutI32(view.children[c]) == front + ChildrenBytes(view.children[..c + 1]);
      pos := pos + 4;
      c := c + 1;
    }
    assert view.children[..c] == view.children;
  }

  method WriteNode(view: NodeView) returns (d: array<Byte>)
    requires Fits(view)
    ensures fresh(d) && d.Length == PAGE_SIZE
    ensures d[..] == PageImage(view)
  {
    hide EntrySize, EntryBytes, HeaderBytes, Storable, PutI32, EntriesSize, EntriesBytes, ChildrenBytes, Zeros;
    FitsCount(view);
    EntriesNone();
    d := ClearedPage();
    Append(d, 0, HeaderBytes(view), []);
    assert [] + HeaderBytes(view) == HeaderBytes(view);
    var pos := WriteEntries(d, view);
    if view.leaf {
      assert HeaderBytes(view) + EntriesBytes(view.entries) == NodeBytes(view) by {
        assert view.children == [];
        EntriesNone();
      }
    } else {
      WriteChildren(d, view, pos);
    }
  }

  lemma {:induction false} EntriesAt(es: seq<Entry>, i: nat)
    requires AllStorable(es) && i < |es|
    ensures EntriesSize(es[..i]) + EntrySize(es[i]) <= EntriesSize(es)
    ensures EntriesBytes(es)[EntriesSize(es[..i])..EntriesSize(es[..i]) + EntrySize(es[i])] == EntryBytes(es[i])
    decreases |es|
  {
    hide EntrySize, EntryBytes, Storable;
    var last := |es| - 1;
    if i < last {
      assert es[..last][..i] == es[..i];
      EntriesAt(es[..last], i);
    }
  }

  lemma {:induction false} ChildrenAt(cs: seq<int>, c: nat)
    requires forall i :: 0 <= i < |cs| ==> IsInt32(cs[i])
    requires c < |cs|
    ensures ChildrenBytes(cs)[4 * c..4 * c + 4] == PutI32(cs[c])
    decreases |cs|
  {
    hide PutI32;
    var last := |cs| - 1;
    if c < last {
      ChildrenAt(cs[..last], c);
    }
  }

  /** The i-th entry of a node starts after its predecessors in the node's page. */
  lemma EntryAt(view: NodeView, i: nat)
    requires Fits(view) && i < |view.entries|
    ensures var pos := HEADER + EntriesSize(view.entries[..i]); var size := EntrySize(view.entries[i]);
      && pos + size <= PAGE_SIZE
      && PageImage(view)[pos..pos + size] == EntryBytes(view.entries[i])
  {
    hide EntrySize, EntryBytes, Storable, EntriesSize, EntriesBytes, HeaderBytes, ChildrenBytes, PutI32;
    FitsCount(view);
    EntriesAt(view.entries, i);
    var s, size := EntriesSize(view.entries[..i]), EntrySize(view.entries[i]);
    SliceInside(HeaderBytes(view), EntriesBytes(view.entries), ChildrenBytes(view.children), s, size);
    SliceFront(NodeBytes(view), Zeros(PAGE_SIZE - |NodeBytes(view)|), HEADER + s, size);
  }

  /** The fields of an entry's image: key length, key, page, slot. */
  lemma EntryFields(e: Entry)
    requires Storable(e)
    ensures var klen := |EncodeValue(e.key)|; var d := EntryBytes(e);
      && |d| == klen + 10
      && GetU16(d[..2]) == klen
      && d[2..2 + klen] == EncodeValue(e.key)
      && d[2 + klen..6 + klen] == PutI32(e.rid.page)
      && d[6 + klen..10 + klen] == PutI32(e.rid.slot)
  {
    hide EncodeValue, PutI32;
    U16RoundTrip(|EncodeValue(e.key)|);
  }

  /** Reading the four fields of the entry at `pos` gives the entry back. */
  lemma EntryReads(e: Entry, d: seq<Byte>, pos: nat)
    requires Storable(e)
    requires pos + EntrySize(e) <= |d| && d[pos..pos + EntrySize(e)] == EntryBytes(e)
    ensures var klen := GetU16(d[pos..pos + 2]);
      && EntrySize(e) == klen + 10
      && DecodeValue(d[pos + 2..pos + 2 + klen]) == e.key
      && GetI32(d[pos + 2 + klen..pos + 6 + klen]) == e.rid.page
      && GetI32(d[pos + 6 + klen..pos + 10 + klen]) == e.rid.slot
  {
    hide EncodeValue, DecodeValue, PutI32, GetI32, EntryBytes, GetU16;
    EntryFields(e);
    var klen := |EncodeValue(e.key)|;
    var b := EntryBytes(e);
    assert forall k :: 0 <= k < |b| ==> b[k] == d[pos..pos + EntrySize(e)][k] == d[pos + k];
    assert d[pos..pos + 2] == b[..2];
    assert d[pos + 2..pos + 2 + klen] == b[2..2 + klen];
    assert d[pos + 2 + klen..pos + 6 + klen] == b[2 + klen..6 + klen];
    assert d[pos + 6 + klen..pos + 10 + klen] == b[6 + klen..10 + klen];
    ValueRoundTrip(e.key);
    I32RoundTrip(e.rid.page);
    I32RoundTrip(e.rid.slot);
  }

  lemma ChildAt(view: NodeView, c: nat)
    requires Fits(view) && c < |view.children|
    ensures var pos := HEADER + EntriesSize(view.entries) + 4 * c;
      && pos + 4 <= PAGE_SIZE
      && PageImage(view)[pos..pos + 4] == PutI32(view.children[c])
  {
    hide EntrySize, EntryBytes, Storable, EntriesSize, EntriesBytes, HeaderBytes, ChildrenBytes, PutI32;
    FitsCount(view);
    ChildrenAt(view.children, c);
    var front := HeaderBytes(view) + EntriesBytes(view.entries);
    assert front + ChildrenBytes(view.children) + [] == NodeBytes(view);
    SliceInside(front, ChildrenBytes(view.children), [], 4 * c, 4);
    SliceFront(NodeBytes(view), Zeros(PAGE_SIZE - |NodeBytes(view)|), |front| + 4 * c, 4);
  }

  lemma HeaderAt(view: NodeView)
    requires Fits(view)
    ensures var d := PageImage(view);
      && d[0] == (if view.leaf then 1 else 0)
      && GetU16(d[2..4]) == |view.entries|
      && d[4..8] == PutI32(view.nextLeaf)
  {
    FitsCount(view);
    var d := PageImage(view);
    assert d[..8] == HeaderBytes(view);
    assert d[2..4] == d[..8][2..4] == PutU16(|view.entries|);
    assert d[4..8] == d[..8][4..8];
    U16RoundTrip(|view.entries|);
  }

  method ReadEntry(d: seq<Byte>, pos: nat, ghost written: Entry) returns (e: Entry, next: nat)
    requires Storable(written)
    requires pos + EntrySize(written) <= |d| && d[pos..pos + EntrySize(written)] == EntryBytes(written)
    ensures e == written && next == pos + EntrySize(written)
  {
    hide DecodeValue, GetI32, EntryBytes, GetU16, EntrySize, Storable;
    EntryReads(written, d, pos);
    var klen := GetU16(d[pos..pos + 2]);
    next := pos + 2;
    var key := DecodeValue(d[next..next + klen]);
    next := next + klen;
    var rid := RecordID(GetI32(d[next..next + 4]), GetI32(d[next + 4..next + 8]));
    next := next + 8;
    e := Entry(key, rid);
  }

  /** Decodes a page written by WriteNode back into the node that was written. */
  method ReadNode(d: seq<Byte>, ghost written: NodeView) returns (view: NodeView)
    requires Fits(written) && d == PageImage(written)
    ensures view == written
  {
    hide EntriesSize, EntrySize, EntryBytes, PageImage, GetI32, Storable, PutI32;
    HeaderAt(written);
    EntriesNone();
    var leaf := d[0] != 0;
    var n := GetU16(d[2..4]);
    I32RoundTrip(written.nextLeaf);
    var nextLeaf := GetI32(d[4..8]);
    var pos := HEADER;
    var entries: seq<Entry> := [];
    var i := 0;
    while i < n
      invariant 0 <= i <= n == |written.entries|
      invariant entries == written.entries[..i]
      invariant pos == HEADER + EntriesSize(entries)
    {
      EntryAt(written, i);
      EntriesSizeSnoc(written.entries, i);
      var e;
      e, pos := ReadEntry(d, pos, written.entries[i]);
      entries := entries + [e];
      i := i + 1;
    }
    assert written.entries[..n] == written.entries;
    var children: seq<int> := [];
    if !leaf {
      var c := 0;
      while c < n + 1
        invariant 0 <= c <= n + 1 == |written.children|
        invariant children == written.children[..c]
        invariant pos == HEADER + EntriesSize(entries) + 4 * c
      {
        ChildAt(written, c);
        I32RoundTrip(written.children[c]);
        children := children + [GetI32(d[pos..pos + 4])];
        pos := pos + 4;
        c := c + 1;
      }
      assert written.children[..c] == written.children;
    }
    view := NodeView(leaf, nextLeaf, entries, children);
  }
}
