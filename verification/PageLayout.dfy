/** The layout of a slotted page: a header, a slot array growing up, records
    growing down from the end; and what a page means as a map from slots to records. */
module PageLayout {
  import opened Bytes

  const HEADER_SIZE: nat := 12
  const SLOT_SIZE: nat := 4

  type Record = seq<Byte>

  /** A page as its users see it: a log sequence number and one record per slot (empty when
      the slot is dead); `freeEnd` is where the record area starts. */
  datatype PageState = PageState(lsn: nat, slots: seq<Record>, freeEnd: nat)

  const EMPTY_PAGE := PageState(0, [], PAGE_SIZE)

  function TotalLength(slots: seq<Record>): nat {
    if slots == [] then 0 else TotalLength(slots[..|slots| - 1]) + |slots[|slots| - 1]|
  }

  /** Bytes between slot array and record area. */
  function FreeSpace(p: PageState): int {
    p.freeEnd - (HEADER_SIZE + SLOT_SIZE * |p.slots|)
  }

  /** Bytes neither header, slots nor live records take: what compaction can give. */
  function UsableSpace(p: PageState): int {
    PAGE_SIZE - (HEADER_SIZE + SLOT_SIZE * |p.slots|) - TotalLength(p.slots)
  }

  /** Dead slots appended up to the given count. */
  function Pad(slots: seq<Record>, count: nat): (r: seq<Record>)
    ensures |r| == if count <= |slots| then |slots| else count
  {
    if count <= |slots| then slots else slots + seq(count - |slots|, _ => [])
  }

  // ----- Fields of a page's bytes

  function Count(b: seq<Byte>): nat
    requires |b| == PAGE_SIZE
  {
    GetU16(b[0..2])
  }

  function FreeEnd(b: seq<Byte>): nat
    requires |b| == PAGE_SIZE
  {
    GetU16(b[2..4])
  }

  function PageLsn(b: seq<Byte>): nat
    requires |b| == PAGE_SIZE
  {
    GetUnsigned(b[4..12])
  }

  function SlotEnd(i: nat): nat {
    HEADER_SIZE + SLOT_SIZE * i
  }

  function Off(b: seq<Byte>, i: nat): nat
    requires |b| == PAGE_SIZE && SlotEnd(i + 1) <= PAGE_SIZE
  {
    GetU16(b[SlotEnd(i)..SlotEnd(i) + 2])
  }

  function Len(b: seq<Byte>, i: nat): nat
    requires |b| == PAGE_SIZE && SlotEnd(i + 1) <= PAGE_SIZE
  {
    GetU16(b[SlotEnd(i) + 2..SlotEnd(i) + 4])
  }

  /** A slot is dead, or its record lies in the record area. */
  ghost predicate SlotOk(b: seq<Byte>, i: nat)
    requires |b| == PAGE_SIZE && SlotEnd(i + 1) <= PAGE_SIZE
  {
    Len(b, i) == 0 || (FreeEnd(b) <= Off(b, i) && Off(b, i) + Len(b, i) <= PAGE_SIZE)
  }

  ghost predicate Apart(b: seq<Byte>, i: nat, j: nat)
    requires |b| == PAGE_SIZE && SlotEnd(i + 1) <= PAGE_SIZE && SlotEnd(j + 1) <= PAGE_SIZE
  {
    || Len(b, i) == 0 || Len(b, j) == 0
    || Off(b, i) + Len(b, i) <= Off(b, j) || Off(b, j) + Len(b, j) <= Off(b, i)
  }

  /** Live records are disjoint and lie between the slot array and the end of the page. */
  ghost predicate Structured(b: seq<Byte>) {
    && |b| == PAGE_SIZE
    && SlotEnd(Count(b)) <= FreeEnd(b) <= PAGE_SIZE
    && (forall i :: 0 <= i < Count(b) ==> SlotOk(b, i))
    && (forall i, j :: 0 <= i < j < Count(b) ==> Apart(b, i, j))
  }

  /** The record in slot i; empty when the slot is dead. */
  function RecordAt(b: seq<Byte>, i: nat): Record
    requires |b| == PAGE_SIZE && SlotEnd(i + 1) <= PAGE_SIZE
  {
    if Len(b, i) == 0 || Off(b, i) + Len(b, i) > PAGE_SIZE then []
    else b[Off(b, i)..Off(b, i) + Len(b, i)]
  }

  ghost function SlotsOf(b: seq<Byte>): (s: seq<Record>)
    requires Structured(b)
    ensures |s| == Count(b)
    ensures forall i :: 0 <= i < |s| ==> s[i] == RecordAt(b, i)
  {
    seq(Count(b), i requires 0 <= i < Count(b) => RecordAt(b, i))
  }

  lemma RecordLength(b: seq<Byte>, i: nat)
    requires Structured(b) && i < Count(b)
    ensures |RecordAt(b, i)| == Len(b, i)
  {
    assert SlotOk(b, i);
  }

  ghost function StateOf(b: seq<Byte>): PageState
    requires Structured(b)
  {
    PageState(PageLsn(b), SlotsOf(b), FreeEnd(b))
  }

  // ----- Writing bytes

  function WriteAt(b: seq<Byte>, off: nat, bs: seq<Byte>): (r: seq<Byte>)
    requires off + |bs| <= |b|
    ensures |r| == |b|
  {
    b[..off] + bs + b[off + |bs|..]
  }

  lemma WriteAtElsewhere(b: seq<Byte>, off: nat, bs: seq<Byte>, lo: nat, hi: nat)
    requires off + |bs| <= |b| && lo <= hi <= |b|
    requires hi <= off || off + |bs| <= lo
    ensures WriteAt(b, off, bs)[lo..hi] == b[lo..hi]
  {
    var r := WriteAt(b, off, bs);
    assert forall k :: lo <= k < hi ==> r[k] == b[k];
  }

  lemma WriteAtThere(b: seq<Byte>, off: nat, bs: seq<Byte>)
    requires off + |bs| <= |b|
    ensures WriteAt(b, off, bs)[off..off + |bs|] == bs
  {
  }

  function SlotBytes(off: nat, len: nat): (r: seq<Byte>)
    requires off < 0x1_0000 && len < 0x1_0000
    ensures |r| == 4
  {
    PutU16(off) + PutU16(len)
  }

  /** Slot i has the same fields in both pages. */
  ghost predicate SameSlot(b: seq<Byte>, c: seq<Byte>, i: nat) {
    && |b| == |c| == PAGE_SIZE && SlotEnd(i + 1) <= PAGE_SIZE
    && Off(c, i) == Off(b, i) && Len(c, i) == Len(b, i)
  }

  /** Two pages that agree up to the end of the slot array have the same layout. */
  lemma SameLayout(b: seq<Byte>, c: seq<Byte>, n: nat)
    requires |b| == |c| == PAGE_SIZE && SlotEnd(n) <= PAGE_SIZE
    requires c[..SlotEnd(n)] == b[..SlotEnd(n)]
    ensures Count(c) == Count(b) && FreeEnd(c) == FreeEnd(b) && PageLsn(c) == PageLsn(b)
    ensures forall i :: 0 <= i < n ==> SameSlot(b, c, i)
  {
    hide GetU16, GetUnsigned;
    SliceEarlier(b, c, SlotEnd(n), 0, 2);
    SliceEarlier(b, c, SlotEnd(n), 2, 4);
    SliceEarlier(b, c, SlotEnd(n), 4, 12);
    forall i | 0 <= i < n ensures SameSlot(b, c, i) {
      SliceEarlier(b, c, SlotEnd(n), SlotEnd(i), SlotEnd(i) + 2);
      SliceEarlier(b, c, SlotEnd(n), SlotEnd(i) + 2, SlotEnd(i) + 4);
    }
  }

  /** Writing slot i changes that slot's fields and nothing else. */
  lemma SetSlotFields(b: seq<Byte>, i: nat, off: nat, len: nat, n: nat)
    requires |b| == PAGE_SIZE && i < n && SlotEnd(n) <= PAGE_SIZE && off < 0x1_0000 && len < 0x1_0000
    ensures var c := WriteAt(b, SlotEnd(i), SlotBytes(off, len));
      && Count(c) == Count(b) && FreeEnd(c) == FreeEnd(b) && PageLsn(c) == PageLsn(b)
      && Off(c, i) == off && Len(c, i) == len
      && (forall j :: 0 <= j < n && j != i ==> SameSlot(b, c, j))
      && c[SlotEnd(i + 1)..] == b[SlotEnd(i + 1)..]
  {
    hide WriteAt, PutU16, GetU16, GetUnsigned;
    var bs := SlotBytes(off, len);
    var c := WriteAt(b, SlotEnd(i), bs);
    var s := SlotEnd(i);
    WriteAtElsewhere(b, s, bs, 0, 2);
    WriteAtElsewhere(b, s, bs, 2, 4);
    WriteAtElsewhere(b, s, bs, 4, 12);
    WriteAtElsewhere(b, s, bs, s + 4, PAGE_SIZE);
    WriteAtThere(b, s, bs);
    assert c[s..s + 2] == c[s..s + 4][..2] == PutU16(off);
    assert c[s + 2..s + 4] == c[s..s + 4][2..] == PutU16(len);
    U16RoundTrip(off);
    U16RoundTrip(len);
    forall j | 0 <= j < n && j != i ensures SameSlot(b, c, j) {
      WriteAtElsewhere(b, s, bs, SlotEnd(j), SlotEnd(j) + 2);
      WriteAtElsewhere(b, s, bs, SlotEnd(j) + 2, SlotEnd(j) + 4);
    }
  }

  // Writing a header field (slot count, record-area start or LSN) changes that field only.

  lemma SetCountFields(b: seq<Byte>, count: nat, n: nat)
    requires |b| == PAGE_SIZE && SlotEnd(n) <= PAGE_SIZE && count < 0x1_0000
    ensures var c := WriteAt(b, 0, PutU16(count));
      && Count(c) == count && FreeEnd(c) == FreeEnd(b) && PageLsn(c) == PageLsn(b)
      && (forall j :: 0 <= j < n ==> SameSlot(b, c, j))
      && c[HEADER_SIZE..] == b[HEADER_SIZE..]
  {
    hide WriteAt, GetU16, GetUnsigned, PutU16, PutUnsigned, Power256;
    var bs := PutU16(count);
    var c := WriteAt(b, 0, bs);
    WriteAtThere(b, 0, bs);
    U16RoundTrip(count);
    WriteAtElsewhere(b, 0, bs, 2, 4);
    WriteAtElsewhere(b, 0, bs, 4, 12);
    WriteAtElsewhere(b, 0, bs, HEADER_SIZE, PAGE_SIZE);
    assert c[HEADER_SIZE..] == c[HEADER_SIZE..PAGE_SIZE] && b[HEADER_SIZE..] == b[HEADER_SIZE..PAGE_SIZE];
    SameTail(b, c, n);
  }

  lemma SetFreeEndFields(b: seq<Byte>, freeEnd: nat, n: nat)
    requires |b| == PAGE_SIZE && SlotEnd(n) <= PAGE_SIZE && freeEnd < 0x1_0000
    ensures var c := WriteAt(b, 2, PutU16(freeEnd));
      && Count(c) == Count(b) && FreeEnd(c) == freeEnd && PageLsn(c) == PageLsn(b)
      && (forall j :: 0 <= j < n ==> SameSlot(b, c, j))
      && c[HEADER_SIZE..] == b[HEADER_SIZE..]
  {
    hide WriteAt, GetU16, GetUnsigned, PutU16, PutUnsigned, Power256;
    var bs := PutU16(freeEnd);
    var c := WriteAt(b, 2, bs);
    WriteAtThere(b, 2, bs);
    U16RoundTrip(freeEnd);
    WriteAtElsewhere(b, 2, bs, 0, 2);
    WriteAtElsewhere(b, 2, bs, 4, 12);
    WriteAtElsewhere(b, 2, bs, HEADER_SIZE, PAGE_SIZE);
    assert c[HEADER_SIZE..] == c[HEADER_SIZE..PAGE_SIZE] && b[HEADER_SIZE..] == b[HEADER_SIZE..PAGE_SIZE];
    SameTail(b, c, n);
  }

  lemma SetLsnFields(b: seq<Byte>, lsn: nat, n: nat)
    requires |b| == PAGE_SIZE && SlotEnd(n) <= PAGE_SIZE && lsn < Power256(8)
    ensures var c := WriteAt(b, 4, PutUnsigned(lsn, 8));
      && Count(c) == Count(b) && FreeEnd(c) == FreeEnd(b) && PageLsn(c) == lsn
      && (forall j :: 0 <= j < n ==> SameSlot(b, c, j))
      && c[HEADER_SIZE..] == b[HEADER_SIZE..]
  {
    hide WriteAt, GetU16, GetUnsigned, PutU16, PutUnsigned, Power256;
    var bs := PutUnsigned(lsn, 8);
    var c := WriteAt(b, 4, bs);
    WriteAtThere(b, 4, bs);
    UnsignedRoundTrip(lsn, 8);
    WriteAtElsewhere(b, 4, bs, 0, 2);
    WriteAtElsewhere(b, 4, bs, 2, 4);
    WriteAtElsewhere(b, 4, bs, HEADER_SIZE, PAGE_SIZE);
    assert c[HEADER_SIZE..] == c[HEADER_SIZE..PAGE_SIZE] && b[HEADER_SIZE..] == b[HEADER_SIZE..PAGE_SIZE];
    SameTail(b, c, n);
  }

  lemma SameTail(b: seq<Byte>, c: seq<Byte>, n: nat)
    requires |b| == |c| == PAGE_SIZE && SlotEnd(n) <= PAGE_SIZE && c[HEADER_SIZE..] == b[HEADER_SIZE..]
    ensures forall i :: 0 <= i < n ==> SameSlot(b, c, i)
  {
    hide GetU16;
    forall i | 0 <= i < n ensures SameSlot(b, c, i) {
      SliceLater(b, c, HEADER_SIZE, SlotEnd(i), SlotEnd(i) + 2);
      SliceLater(b, c, HEADER_SIZE, SlotEnd(i) + 2, SlotEnd(i) + 4);
    }
  }

  // ----- Live records never exceed the record area

  ghost function Interval(lo: nat, n: nat): (s: set<nat>)
    ensures |s| == n && forall x :: x in s <==> lo <= x < lo + n
  {
    if n == 0 then {} else
      var rest := Interval(lo, n - 1);
      assert lo + n - 1 !in rest;
      rest + {lo + n - 1}
  }

  lemma SubsetSize(a: set<nat>, b: set<nat>)
    requires a <= b
    ensures |a| <= |b|
  {
    assert b == a + (b - a);
  }

  /** x is one of the bytes record i occupies. */
  ghost predicate Occupies(b: seq<Byte>, i: nat, x: nat)
    requires |b| == PAGE_SIZE && SlotEnd(i + 1) <= PAGE_SIZE
  {
    Off(b, i) <= x < Off(b, i) + Len(b, i)
  }

  /** The bytes the first n records cover, as many as their lengths add up to. */
  lemma {:induction false} Covered(b: seq<Byte>, n: nat) returns (s: set<nat>)
    requires Structured(b) && n <= Count(b)
    ensures |s| == TotalLength(SlotsOf(b)[..n])
    ensures forall x :: x in s ==> exists i :: 0 <= i < n && Occupies(b, i, x)
    decreases n
  {
    hide Off, Len, Count, FreeEnd, Occupies, RecordAt;
    if n == 0 {
      s := {};
    } else {
      var m := n - 1;
      var before := Covered(b, m);
      assert SlotsOf(b)[..n][..m] == SlotsOf(b)[..m];
      RecordLength(b, m);
      var here := Interval(Off(b, m), Len(b, m));
      forall x | x in before ensures x !in here {
        var i :| 0 <= i < m && Occupies(b, i, x);
        assert Apart(b, i, m);
        ApartBytes(b, i, m, x);
      }
      OccupiedInterval(b, m, here);
      assert before !! here;
      s := before + here;
    }
  }

  lemma ApartBytes(b: seq<Byte>, i: nat, j: nat, x: nat)
    requires |b| == PAGE_SIZE && SlotEnd(i + 1) <= PAGE_SIZE && SlotEnd(j + 1) <= PAGE_SIZE
    requires Apart(b, i, j) && Occupies(b, i, x)
    ensures x !in Interval(Off(b, j), Len(b, j))
  {
    hide Off, Len;
  }

  lemma OccupiedInterval(b: seq<Byte>, i: nat, s: set<nat>)
    requires |b| == PAGE_SIZE && SlotEnd(i + 1) <= PAGE_SIZE && s == Interval(Off(b, i), Len(b, i))
    ensures forall x :: x in s ==> Occupies(b, i, x)
  {
    hide Off, Len;
  }

  lemma LiveBytesFit(b: seq<Byte>)
    requires Structured(b)
    ensures TotalLength(SlotsOf(b)) <= PAGE_SIZE - FreeEnd(b)
    ensures FreeSpace(StateOf(b)) <= UsableSpace(StateOf(b))
  {
    var s := Covered(b, Count(b));
    hide Off, Len, Count, FreeEnd;
    assert SlotsOf(b)[..Count(b)] == SlotsOf(b);
    forall x | x in s ensures x in Interval(FreeEnd(b), PAGE_SIZE - FreeEnd(b)) {
      var i :| 0 <= i < Count(b) && Occupies(b, i, x);
      assert SlotOk(b, i);
    }
    SubsetSize(s, Interval(FreeEnd(b), PAGE_SIZE - FreeEnd(b)));
  }
}
