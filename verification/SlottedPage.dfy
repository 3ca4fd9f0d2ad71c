/** Slotted pages: records of varying length in a 4 KB page, edited in place. */
module SlottedPage {
  import opened Bytes
  import opened PageLayout

  // ----- What recovery's two page operations do to a page's state

  function Compacted(p: PageState): PageState
    requires TotalLength(p.slots) <= PAGE_SIZE
  {
    p.(freeEnd := PAGE_SIZE - TotalLength(p.slots))
  }

  function Stamp(p: PageState, lsn: nat): PageState {
    if lsn != 0 then p.(lsn := lsn) else p
  }

  predicate Holds(p: PageState, slot: nat, rec: Record) {
    slot < |p.slots| && p.slots[slot] != [] && p.slots[slot] == rec
  }

  /** The page already has this change, by its LSN. */
  predicate Skips(p: PageState, lsn: nat) {
    lsn != 0 && p.lsn >= lsn
  }

  function Grown(p: PageState, slot: nat): PageState {
    p.(slots := Pad(p.slots, slot + 1))
  }

  /** The grown page can take the record, after compaction if need be. */
  predicate HasRoom(p: PageState, slot: nat, rec: Record) {
    |rec| <= FreeSpace(Grown(p, slot)) || |rec| <= UsableSpace(Grown(p, slot))
  }

  /** Growing the slot array runs into no record. */
  predicate CanGrow(p: PageState, slot: nat) {
    slot < |p.slots| || SlotEnd(slot + 1) <= p.freeEnd
  }

  predicate PadFits(p: PageState, slot: nat) {
    TotalLength(Grown(p, slot).slots) <= PAGE_SIZE
  }

  /** The record placed below the record area of the grown page, compacted first if it is full. */
  function WithRecord(p: PageState, slot: nat, rec: Record): PageState
    requires PadFits(p, slot)
  {
    var g := Grown(p, slot);
    var c := if FreeSpace(g) < |rec| then Compacted(g) else g;
    PageState(p.lsn, c.slots[slot := rec], if c.freeEnd < |rec| then 0 else c.freeEnd - |rec|)
  }

  function AfterSet(p: PageState, slot: nat, rec: Record, lsn: nat): (r: (PageState, bool))
    requires TotalLength(p.slots) <= PAGE_SIZE
  {
    if Skips(p, lsn) then (p, true)
    else if Holds(p, slot, rec) then (Stamp(p, lsn), true)
    else if rec == [] || |rec| > 0xFFFF then (p, false)
    else
      PadTotal(p.slots, slot + 1);
      if HasRoom(p, slot, rec) then (Stamp(WithRecord(p, slot, rec), lsn), true)
      else (Grown(p, slot), false)
  }

  function AfterClear(p: PageState, slot: int, lsn: nat): PageState {
    if Skips(p, lsn) then p
    else Stamp(if 0 <= slot < |p.slots| then p.(slots := p.slots[slot := []]) else p, lsn)
  }

  // ----- Totals

  lemma {:induction false} PadTotal(slots: seq<Record>, count: nat)
    ensures TotalLength(Pad(slots, count)) == TotalLength(slots)
    decreases count
  {
    if count > |slots| {
      PadTotal(slots, count - 1);
      assert Pad(slots, count)[..count - 1] == Pad(slots, count - 1);
    }
  }

  lemma {:induction false} TotalUpdate(slots: seq<Record>, i: nat, rec: Record)
    requires i < |slots|
    ensures TotalLength(slots[i := rec]) == TotalLength(slots) - |slots[i]| + |rec|
  {
    var n := |slots| - 1;
    if i < n {
      TotalUpdate(slots[..n], i, rec);
      assert slots[i := rec][..n] == slots[..n][i := rec];
    } else {
      assert slots[i := rec][..n] == slots[..n];
    }
  }

  lemma {:induction false} TotalPrefix(slots: seq<Record>, i: nat)
    requires i <= |slots|
    ensures TotalLength(slots[..i]) <= TotalLength(slots)
    decreases |slots| - i
  {
    if i < |slots| {
      assert slots[..i + 1][..i] == slots[..i];
      TotalPrefix(slots, i + 1);
    } else {
      assert slots[..i] == slots;
    }
  }

  /** An insertion is a placement in the next slot. */
  lemma InsertedIs(p: PageState, c: PageState, q: PageState, rec: Record)
    requires TotalLength(p.slots) <= PAGE_SIZE && |rec| <= c.freeEnd
    requires c == if FreeSpace(p) < |rec| + SLOT_SIZE then Compacted(p) else p
    requires q == PageState(c.lsn, Pad(c.slots, |p.slots| + 1)[|p.slots| := rec], c.freeEnd - |rec|)
    ensures PadFits(p, |p.slots|) && q == WithRecord(p, |p.slots|, rec) && q.slots == p.slots + [rec]
  {
    hide TotalLength;
    PadTotal(p.slots, |p.slots| + 1);
  }

  // ----- Placing a record

  /** The bytes after a record was stored below the record area and its slot pointed at it. */
  ghost predicate Placed(b: seq<Byte>, c: seq<Byte>, count: nat, slot: nat, rec: Record) {
    && Structured(b) && |c| == PAGE_SIZE
    && Count(b) <= count && slot < count && 0 < |rec| <= FreeEnd(b)
    && SlotEnd(count) <= FreeEnd(b) - |rec|
    && Count(c) == count && FreeEnd(c) == FreeEnd(b) - |rec|
    && Off(c, slot) == FreeEnd(c) && Len(c, slot) == |rec|
    && (forall i :: 0 <= i < count && i != slot ==> if i < Count(b) then SameSlot(b, c, i) else Dead(c, i))
    && c[FreeEnd(c)..FreeEnd(b)] == rec
    && c[FreeEnd(b)..] == b[FreeEnd(b)..]
  }

  ghost predicate Dead(c: seq<Byte>, i: nat) {
    |c| == PAGE_SIZE && SlotEnd(i + 1) <= PAGE_SIZE && Len(c, i) == 0
  }

  /** A slot untouched by a placement is as it was, record included. */
  lemma PlacedSlot(b: seq<Byte>, c: seq<Byte>, count: nat, slot: nat, rec: Record, i: nat)
    requires Placed(b, c, count, slot, rec) && i < count && i != slot
    ensures SlotEnd(i + 1) <= PAGE_SIZE && SlotOk(c, i) && Apart(c, i, slot)
    ensures RecordAt(c, i) == if i < Count(b) then RecordAt(b, i) else []
    ensures i < Count(b) ==> SameSlot(b, c, i)
  {
    hide Off, Len, Count, FreeEnd;
    if i < Count(b) {
      assert SameSlot(b, c, i) && SlotOk(b, i);
      if Len(b, i) != 0 {
        var lo, hi := Off(b, i), Off(b, i) + Len(b, i);
        SliceLater(b, c, FreeEnd(b), lo, hi);
      }
    } else {
      assert Dead(c, i);
    }
  }

  lemma PlacedState(b: seq<Byte>, c: seq<Byte>, count: nat, slot: nat, rec: Record)
    requires Placed(b, c, count, slot, rec)
    ensures Structured(c) && SlotsOf(c) == Pad(SlotsOf(b), count)[slot := rec]
    ensures FreeEnd(c) == FreeEnd(b) - |rec|
  {
    hide Off, Len, Count, FreeEnd;
    forall i | 0 <= i < count ensures SlotOk(c, i) {
      if i != slot {
        PlacedSlot(b, c, count, slot, rec, i);
      }
    }
    forall i, j | 0 <= i < j < count ensures Apart(c, i, j) {
      if i == slot {
        PlacedSlot(b, c, count, slot, rec, j);
      } else if j == slot {
        PlacedSlot(b, c, count, slot, rec, i);
      } else {
        PlacedSlot(b, c, count, slot, rec, i);
        PlacedSlot(b, c, count, slot, rec, j);
        if j < Count(b) {
          assert Apart(b, i, j);
        }
      }
    }
    forall i | 0 <= i < count ensures SlotsOf(c)[i] == Pad(SlotsOf(b), count)[slot := rec][i] {
      if i != slot {
        PlacedSlot(b, c, count, slot, rec, i);
      }
    }
  }

  class Page {
    const bytes: array<Byte>

    ghost predicate Valid()
      reads bytes
    {
      bytes.Length == PAGE_SIZE && Structured(bytes[..])
    }

    /** A page never written since it was allocated: all its header reads as zero. */
    ghost predicate Blank()
      reads bytes
    {
      bytes.Length == PAGE_SIZE && FreeEnd(bytes[..]) < HEADER_SIZE
    }

    ghost function State(): PageState
      requires Valid()
      reads bytes
    {
      StateOf(bytes[..])
    }

    /** A blank page stands for an empty one. */
    ghost function StateOrEmpty(): PageState
      requires Valid() || Blank()
      reads bytes
    {
      if FreeEnd(bytes[..]) < HEADER_SIZE then EMPTY_PAGE else StateOf(bytes[..])
    }

    constructor ()
      ensures fresh(bytes) && Valid() && State() == EMPTY_PAGE
    {
      bytes := new Byte[PAGE_SIZE](_ => 0);
      new;
      Init();
    }

    /** A page in a buffer frame. */
    constructor From(content: seq<Byte>)
      requires |content| == PAGE_SIZE
      ensures fresh(bytes) && bytes[..] == content
    {
      bytes := new Byte[PAGE_SIZE](i requires 0 <= i < |content| => content[i]);
      new;
      assert bytes[..] == content;
    }

    method Init()
      requires bytes.Length == PAGE_SIZE
      modifies bytes
      ensures Valid() && State() == EMPTY_PAGE
    {
      for i := 0 to PAGE_SIZE
        invariant forall k :: 0 <= k < i ==> bytes[k] == 0
      {
        bytes[i] := 0;
      }
      assert bytes[..] == Zeros(PAGE_SIZE);
      WriteU16(0, 0);
      WriteU16(2, PAGE_SIZE);
      EmptyFields();
    }

    // ----- Fields

    method WriteU16(off: nat, value: nat)
      requires bytes.Length == PAGE_SIZE && off + 2 <= PAGE_SIZE && value < 0x1_0000
      modifies bytes
      ensures bytes[..] == WriteAt(old(bytes[..]), off, PutU16(value))
    {
      Put(bytes, off, PutU16(value));
    }

    method SetLsn(lsn: nat)
      requires bytes.Length == PAGE_SIZE && lsn < Power256(8)
      modifies bytes
      ensures bytes[..] == WriteAt(old(bytes[..]), 4, PutUnsigned(lsn, 8))
    {
      Put(bytes, 4, PutUnsigned(lsn, 8));
    }

    method SlotAt(slot: nat) returns (off: nat, len: nat)
      requires bytes.Length == PAGE_SIZE && SlotEnd(slot + 1) <= PAGE_SIZE
      ensures off == Off(bytes[..], slot) && len == Len(bytes[..], slot)
    {
      var base := HEADER_SIZE + slot * SLOT_SIZE;
      off := GetU16(bytes[base..base + 2]);
      len := GetU16(bytes[base + 2..base + 4]);
      assert bytes[..][base..base + 2] == bytes[base..base + 2];
      assert bytes[..][base + 2..base + 4] == bytes[base + 2..base + 4];
    }

    method SetSlot(slot: nat, off: nat, len: nat)
      requires bytes.Length == PAGE_SIZE && SlotEnd(slot + 1) <= PAGE_SIZE && off < 0x1_0000 && len < 0x1_0000
      modifies bytes
      ensures bytes[..] == WriteAt(old(bytes[..]), SlotEnd(slot), SlotBytes(off, len))
    {
      var base := HEADER_SIZE + slot * SLOT_SIZE;
      Put(bytes, base, PutU16(off));
      Put(bytes, base + 2, PutU16(len));
      SlotInTwo(old(bytes[..]), base, PutU16(off), PutU16(len));
    }

    method SlotCount() returns (n: nat)
      requires bytes.Length == PAGE_SIZE
      ensures n == Count(bytes[..])
    {
      n := GetU16(bytes[0..2]);
      assert bytes[..][0..2] == bytes[0..2];
    }

    method ReadFreeEnd() returns (n: nat)
      requires bytes.Length == PAGE_SIZE
      ensures n == FreeEnd(bytes[..])
    {
      n := GetU16(bytes[2..4]);
      assert bytes[..][2..4] == bytes[2..4];
    }

    method ReadLsn() returns (n: nat)
      requires bytes.Length == PAGE_SIZE
      ensures n == PageLsn(bytes[..])
    {
      n := GetUnsigned(bytes[4..12]);
      assert bytes[..][4..12] == bytes[4..12];
    }

    // ----- Reads

    method IsLive(slot: int) returns (live: bool)
      requires Valid()
      ensures live == (0 <= slot < |State().slots| && State().slots[slot] != [])
    {
      var n := SlotCount();
      if slot < 0 || slot >= n {
        return false;
      }
      var off, len := SlotAt(slot);
      RecordLength(bytes[..], slot);
      live := len != 0;
    }

    method Get(slot: int) returns (found: bool, out: Record)
      requires Valid()
      ensures found == (0 <= slot < |State().slots| && State().slots[slot] != [])
      ensures out == if found then State().slots[slot] else []
    {
      out := [];
      found := IsLive(slot);
      if found {
        var off, len := SlotAt(slot);
        RecordLength(bytes[..], slot);
        assert SlotOk(bytes[..], slot);
        out := bytes[off..off + len];
        assert bytes[..][off..off + len] == bytes[off..off + len];
      }
    }

    /** Bytes left for records and slots once dead records are squeezed out. */
    method Usable() returns (space: int)
      requires Valid()
      ensures space == UsableSpace(State())
    {
      hide Off, Len, Count, FreeEnd;
      var count := SlotCount();
      var liveBytes := 0;
      var s := 0;
      ghost var slots := State().slots;
      while s < count
        invariant 0 <= s <= count == |slots|
        invariant liveBytes == TotalLength(slots[..s])
      {
        var off, len := SlotAt(s);
        RecordLength(bytes[..], s);
        assert slots[..s + 1][..s] == slots[..s];
        liveBytes := liveBytes + len;
        s := s + 1;
      }
      assert slots[..s] == slots;
      space := PAGE_SIZE - (HEADER_SIZE + count * SLOT_SIZE) - liveBytes;
    }

    // ----- Updates

    /** Squeezes dead records out; every slot keeps its record. */
    method Compact()
      requires Valid()
      modifies bytes
      ensures Valid() && TotalLength(old(State()).slots) <= PAGE_SIZE && State() == Compacted(old(State()))
    {
      hide Off, Len, Count, FreeEnd, WriteAt, PageLsn, Structured, Packed;
      ghost var b := bytes[..];
      ghost var slots := SlotsOf(b);
      var live := Collect();
      var freeEnd := PAGE_SIZE;
      LiveBytesFit(b);
      StructuredCounts(b);
      PackedStart(b);
      var s := 0;
      while s < |live|
        invariant 0 <= s <= |live| == |slots| == Count(b)
        invariant TotalLength(slots[..s]) <= PAGE_SIZE - FreeEnd(b) && freeEnd == PAGE_SIZE - TotalLength(slots[..s])
        invariant bytes.Length == PAGE_SIZE && Packed(b, bytes[..], s)
      {
        TotalPrefix(slots, s + 1);
        assert slots[..s + 1][..s] == slots[..s];
        ghost var c := bytes[..];
        if live[s] != [] {
          freeEnd := freeEnd - |live[s]|;
          Put(bytes, freeEnd, live[s]);
          ghost var d := bytes[..];
          assert d == WriteAt(c, freeEnd, live[s]) by {
            WriteAtDef(c, freeEnd, live[s]);
          }
          SetSlot(s, freeEnd, |live[s]|);
          PackLive(b, c, d, bytes[..], s, freeEnd);
        } else {
          PackDead(b, c, s);
        }
        s := s + 1;
      }
      assert slots[..s] == slots;
      ghost var c := bytes[..];
      WriteU16(2, freeEnd);
      PackedState(b, c, freeEnd);
    }

    /** Stores a record of `need` bytes just below the record area and points a slot at it. */
    method Place(slot: nat, count: nat, rec: Record)
      requires Valid() && Count(bytes[..]) <= count <= Count(bytes[..]) + 1 && slot < count
      requires Count(bytes[..]) < count ==> slot + 1 == count
      requires 0 < |rec| <= FreeEnd(bytes[..]) && SlotEnd(count) + |rec| <= FreeEnd(bytes[..])
      modifies bytes
      ensures Valid() && State().lsn == old(State()).lsn
      ensures State().slots == Pad(old(State()).slots, count)[slot := rec]
      ensures State().freeEnd == old(State()).freeEnd - |rec|
    {
      hide Off, Len, Count, FreeEnd, WriteAt, PageLsn, Structured, Placed;
      ghost var b := bytes[..];
      StructuredCounts(b);
      var freeEnd := ReadFreeEnd();
      var at := freeEnd - |rec|;
      Put(bytes, at, rec);
      ghost var c := bytes[..];
      WriteAtDef(b, at, rec);
      SetSlot(slot, at, |rec|);
      ghost var d := bytes[..];
      WriteU16(0, count);
      ghost var e := bytes[..];
      WriteU16(2, at);
      PlaceSteps(b, c, d, e, bytes[..], count, slot, rec);
      PlacedState(b, bytes[..], count, slot, rec);
    }

    /** Adds a record in a new slot; succeeds exactly when header, slots and live records leave room. */
    method Insert(rec: Record) returns (ok: bool, slot: nat)
      requires Valid()
      modifies bytes
      ensures Valid()
      ensures ok == (0 < |rec| && |rec| + SLOT_SIZE <= UsableSpace(old(State())))
      ensures !ok ==> bytes[..] == old(bytes[..])
      ensures ok ==> slot == |old(State()).slots| && State().slots == old(State()).slots + [rec]
      ensures ok ==> PadFits(old(State()), slot) && State() == WithRecord(old(State()), slot, rec)
    {
      hide Off, Len, Count, FreeEnd, PageLsn, Structured, WithRecord, PadFits;
      ok, slot := false, 0;
      ghost var p := State();
      LiveBytesFit(bytes[..]);
      StructuredCounts(bytes[..]);
      var need := |rec|;
      if need == 0 || need > 0xFFFF {
        return;
      }
      var count := SlotCount();
      var freeEnd := ReadFreeEnd();
      if freeEnd - (HEADER_SIZE + count * SLOT_SIZE) < need + SLOT_SIZE {
        var usable := Usable();
        if usable < need + SLOT_SIZE {
          return;
        }
        Compact();
      }
      ghost var c := State();
      Place(count, count + 1, rec);
      InsertedIs(p, c, State(), rec);
      ok, slot := true, count;
    }

    /** Marks a slot dead; no record moves. */
    method Erase(slot: int) returns (ok: bool)
      requires Valid()
      modifies bytes
      ensures Valid()
      ensures ok == (0 <= slot < |old(State()).slots| && old(State()).slots[slot] != [])
      ensures State() == if ok then old(State()).(slots := old(State()).slots[slot := []]) else old(State())
    {
      hide Off, Len, Count, FreeEnd, PageLsn, WriteAt;
      ok := IsLive(slot);
      if ok {
        ClearSlot(slot);
      }
    }

    method ClearSlot(slot: nat)
      requires Valid() && slot < Count(bytes[..])
      modifies bytes
      ensures Valid() && State() == old(State()).(slots := old(State()).slots[slot := []])
    {
      hide Off, Len, Count, FreeEnd, PageLsn, WriteAt;
      StructuredCounts(bytes[..]);
      var off, len := SlotAt(slot);
      U16Below(bytes[..], slot);
      ghost var b := bytes[..];
      SetSlot(slot, off, 0);
      Shrunk(b, bytes[..], slot, off, 0);
      assert State().slots == SlotsOf(b)[slot := []];
    }

    /** Overwrites a record in place; succeeds exactly for a live slot and a record that is not longer. */
    method Update(slot: int, rec: Record) returns (ok: bool)
      requires Valid()
      modifies bytes
      ensures Valid()
      ensures ok == (0 <= slot < |old(State()).slots| && 0 < |rec| <= |old(State()).slots[slot]|)
      ensures State() == if ok then old(State()).(slots := old(State()).slots[slot := rec]) else old(State())
    {
      hide Off, Len, Count, FreeEnd, PageLsn, WriteAt;
      ok := IsLive(slot);
      if !ok {
        return;
      }
      var off, len := SlotAt(slot);
      RecordLength(bytes[..], slot);
      ok := false;
      if |rec| == 0 || |rec| > len {
        return;
      }
      ghost var b := bytes[..];
      StructuredCounts(b);
      assert SlotOk(b, slot);
      Put(bytes, off, rec);
      ghost var c := bytes[..];
      WriteAtDef(b, off, rec);
      Overwritten(b, slot, rec);
      SetSlot(slot, off, |rec|);
      Shrunk(c, bytes[..], slot, off, |rec|);
      OverwrittenSlots(b, c, bytes[..], slot, rec);
      ok := true;
    }

    // ----- Recovery

    /** Places a record at an exact slot, unless the page already has the change. */
    method RedoSet(slot: nat, rec: Record, lsn: nat) returns (ok: bool)
      requires Valid() || Blank()
      requires SlotEnd(slot + 1) <= PAGE_SIZE && lsn < Power256(8)
      requires !Skips(StateOrEmpty(), lsn) && !Holds(StateOrEmpty(), slot, rec) && 0 < |rec| <= 0xFFFF ==> CanGrow(StateOrEmpty(), slot)
      modifies bytes
      ensures Valid() && TotalLength(old(StateOrEmpty()).slots) <= PAGE_SIZE
      ensures (State(), ok) == AfterSet(old(StateOrEmpty()), slot, rec, lsn)
    {
      hide Off, Len, Count, FreeEnd, PageLsn, Structured;
      ok := true;
      var start := ReadFreeEnd();
      if start < HEADER_SIZE {
        Init();
      }
      ghost var p := State();
      LiveBytesFit(bytes[..]);
      StructuredCounts(bytes[..]);
      var pageLsn := ReadLsn();
      if lsn != 0 && pageLsn >= lsn {
        return;
      }
      var found, current := Get(slot);
      if found && current == rec {
        if lsn != 0 {
          StampLsn(lsn);
        }
        return;
      }
      if rec == [] || |rec| > 0xFFFF {
        return false;
      }
      ok := PlaceGrown(slot, rec);
      if ok && lsn != 0 {
        StampLsn(lsn);
      }
    }

    /** Grows the slot array to the slot, makes room and stores the record. */
    method PlaceGrown(slot: nat, rec: Record) returns (ok: bool)
      requires Valid() && 0 < |rec| <= 0xFFFF && CanGrow(State(), slot)
      modifies bytes
      ensures Valid() && TotalLength(old(State()).slots) <= PAGE_SIZE && PadFits(old(State()), slot)
      ensures ok == HasRoom(old(State()), slot, rec)
      ensures ok ==> State() == WithRecord(old(State()), slot, rec)
      ensures !ok ==> State() == Grown(old(State()), slot)
    {
      hide Off, Len, Count, FreeEnd, PageLsn, Structured, CanGrow;
      ghost var p := State();
      LiveBytesFit(bytes[..]);
      StructuredCounts(bytes[..]);
      GrowLimit(p, slot);
      PadTotal(p.slots, slot + 1);
      var count := SlotCount();
      if slot >= count {
        Grow(slot);
      }
      assert State() == Grown(p, slot);
      LiveBytesFit(bytes[..]);
      StructuredCounts(bytes[..]);
      count := SlotCount();
      var freeEnd := ReadFreeEnd();
      ok := true;
      if freeEnd - (HEADER_SIZE + count * SLOT_SIZE) < |rec| {
        var usable := Usable();
        if usable < |rec| {
          return false;
        }
        Compact();
      }
      ghost var c := State();
      Place(slot, count, rec);
      assert State().slots == c.slots[slot := rec];
    }

    method StampLsn(lsn: nat)
      requires Valid() && lsn < Power256(8)
      modifies bytes
      ensures Valid() && State() == old(State()).(lsn := lsn)
    {
      hide Off, Len, Count, FreeEnd, PageLsn, WriteAt;
      ghost var b := bytes[..];
      StructuredCounts(b);
      SetLsn(lsn);
      SetLsnFields(b, lsn, Count(b));
      SameRecords(b, bytes[..]);
    }

    /** Extends the slot array with dead slots up to and including `slot`, whatever lies there. */
    method Extend(slot: nat)
      requires bytes.Length == PAGE_SIZE && Count(bytes[..]) <= slot && SlotEnd(slot + 1) <= PAGE_SIZE
      modifies bytes
      ensures bytes[..] == Extended(old(bytes[..]), slot)
    {
      hide Off, Len, Count, FreeEnd, PageLsn, WriteAt, Zeros;
      ghost var b := bytes[..];
      var count := SlotCount();
      var s := count;
      ZeroSlot(b, count, count);
      while s <= slot
        invariant count <= s <= slot + 1 && bytes.Length == PAGE_SIZE
        invariant bytes[..] == WriteAt(b, SlotEnd(count), Zeros(SLOT_SIZE * (s - count)))
      {
        SetSlot(s, 0, 0);
        ZeroSlot(b, count, s);
        s := s + 1;
      }
      WriteU16(0, slot + 1);
    }

    /** Extending the slot array where no record lies: the page gains dead slots. */
    method Grow(slot: nat)
      requires Valid() && Count(bytes[..]) <= slot && SlotEnd(slot + 1) <= FreeEnd(bytes[..])
      modifies bytes
      ensures Valid() && State() == Grown(old(State()), slot)
    {
      ghost var b := bytes[..];
      Extend(slot);
      ExtendedState(b, slot);
    }

    /** Clears a slot, unless the page already has the change. */
    method RedoClear(slot: int, lsn: nat)
      requires (Valid() || Blank()) && lsn < Power256(8)
      modifies bytes
      ensures Valid()
      ensures State() == AfterClear(old(StateOrEmpty()), slot, lsn)
    {
      hide Off, Len, Count, FreeEnd, PageLsn, Structured;
      var start := ReadFreeEnd();
      if start < HEADER_SIZE {
        Init();
      }
      StructuredCounts(bytes[..]);
      var pageLsn := ReadLsn();
      if lsn != 0 && pageLsn >= lsn {
        return;
      }
      var count := SlotCount();
      if slot >= 0 && slot < count {
        ClearSlot(slot);
      }
      if lsn != 0 {
        StampLsn(lsn);
      }
    }

    /** Copies of all records, slot by slot. */
    method Collect() returns (live: seq<Record>)
      requires Valid()
      ensures live == State().slots
    {
      hide Off, Len, Count, FreeEnd;
      var count := SlotCount();
      live := [];
      var s := 0;
      while s < count
        invariant 0 <= s <= count == |State().slots|
        invariant live == State().slots[..s]
      {
        var found, data := Get(s);
        live := live + [data];
        s := s + 1;
      }
      assert State().slots[..s] == State().slots;
    }
  }

  lemma GrowLimit(p: PageState, slot: nat)
    requires CanGrow(p, slot)
    ensures slot < |p.slots| || SlotEnd(slot + 1) <= p.freeEnd
  {
  }

  lemma WriteAtDef(b: seq<Byte>, off: nat, bs: seq<Byte>)
    requires off + |bs| <= |b|
    ensures WriteAt(b, off, bs) == b[..off] + bs + b[off + |bs|..]
  {
  }

  lemma SlotInTwo(b: seq<Byte>, at: nat, x: seq<Byte>, y: seq<Byte>)
    requires |x| == |y| == 2 && at + 4 <= |b|
    ensures WriteAt(WriteAt(b, at, x), at + 2, y) == WriteAt(b, at, x + y)
  {
  }

  /** The bytes of a freshly initialised page describe an empty one. */
  lemma EmptyFields()
    ensures var b := WriteAt(WriteAt(Zeros(PAGE_SIZE), 0, PutU16(0)), 2, PutU16(PAGE_SIZE));
      Structured(b) && StateOf(b) == EMPTY_PAGE
  {
    var z := Zeros(PAGE_SIZE);
    assert z[4..12] == seq(8, _ => 0);
    ZeroBytes(8);
    SetCountFields(z, 0, 0);
    SetFreeEndFields(WriteAt(z, 0, PutU16(0)), PAGE_SIZE, 0);
  }

  lemma ZeroBytes(n: nat)
    ensures GetUnsigned(seq(n, _ => 0)) == 0
  {
    if n > 0 {
      ZeroBytes(n - 1);
      assert seq<Byte>(n, _ => 0)[1..] == seq(n - 1, _ => 0);
    }
  }

  // ----- Compaction

  lemma StructuredCounts(b: seq<Byte>)
    requires Structured(b)
    ensures |SlotsOf(b)| == Count(b) && SlotEnd(Count(b)) <= FreeEnd(b) <= PAGE_SIZE == |b|
  {
  }

  /** Compaction after s slots: those slots' records are packed against the end of the
      page in slot order, the header and the other slots are as they were. */
  ghost predicate Packed(b: seq<Byte>, c: seq<Byte>, s: nat)
    requires Structured(b)
  {
    && |c| == PAGE_SIZE && s <= Count(b)
    && Count(c) == Count(b) && FreeEnd(c) == FreeEnd(b) && PageLsn(c) == PageLsn(b)
    && (forall i :: s <= i < Count(b) ==> SameSlot(b, c, i))
    && (forall i :: 0 <= i < s ==> PackedSlot(SlotsOf(b), c, i))
  }

  ghost predicate PackedSlot(slots: seq<Record>, c: seq<Byte>, i: nat) {
    && i < |slots| && |c| == PAGE_SIZE && SlotEnd(i + 1) <= PAGE_SIZE
    && Len(c, i) == |slots[i]|
    && (slots[i] != [] ==>
          && TotalLength(slots[..i + 1]) <= PAGE_SIZE
          && Off(c, i) == PAGE_SIZE - TotalLength(slots[..i + 1])
          && c[Off(c, i)..Off(c, i) + |slots[i]|] == slots[i])
  }

  lemma PackedStart(b: seq<Byte>)
    requires Structured(b)
    ensures Packed(b, b, 0)
  {
    forall i | 0 <= i < Count(b) ensures SameSlot(b, b, i) {
      assert SlotOk(b, i);
    }
  }

  lemma PrefixTotals(slots: seq<Record>, i: nat, j: nat)
    requires i <= j <= |slots|
    ensures TotalLength(slots[..i]) <= TotalLength(slots[..j])
  {
    assert slots[..j][..i] == slots[..i];
    TotalPrefix(slots[..j], i);
  }

  lemma TotalStep(slots: seq<Record>, i: nat)
    requires i < |slots|
    ensures TotalLength(slots[..i + 1]) == TotalLength(slots[..i]) + |slots[i]|
  {
    assert slots[..i + 1][..i] == slots[..i];
  }

  /** A packed slot stays packed when its fields and the bytes from `from` on stay. */
  lemma PackedSlotFrame(slots: seq<Record>, c: seq<Byte>, e: seq<Byte>, i: nat, from: nat)
    requires PackedSlot(slots, c, i) && SameSlot(c, e, i)
    requires from <= PAGE_SIZE && (slots[i] != [] ==> from <= PAGE_SIZE - TotalLength(slots[..i + 1]))
    requires e[from..] == c[from..]
    ensures PackedSlot(slots, e, i)
  {
    hide Off, Len;
    if slots[i] != [] {
      TotalStep(slots, i);
      SliceLater(c, e, from, Off(c, i), Off(c, i) + |slots[i]|);
    }
  }

  lemma PackDead(b: seq<Byte>, c: seq<Byte>, s: nat)
    requires Structured(b) && s < Count(b) && Packed(b, c, s) && SlotsOf(b)[s] == []
    ensures Packed(b, c, s + 1)
  {
    hide Off, Len, Count, FreeEnd, PageLsn;
    RecordLength(b, s);
    assert SameSlot(b, c, s);
  }

  lemma PackLive(b: seq<Byte>, c: seq<Byte>, d: seq<Byte>, e: seq<Byte>, s: nat, freeEnd: nat)
    requires Structured(b) && s < Count(b) && Packed(b, c, s) && SlotsOf(b)[s] != []
    requires freeEnd + TotalLength(SlotsOf(b)[..s + 1]) == PAGE_SIZE && FreeEnd(b) <= freeEnd
    requires d == WriteAt(c, freeEnd, SlotsOf(b)[s]) && |SlotsOf(b)[s]| < 0x1_0000
    requires e == WriteAt(d, SlotEnd(s), SlotBytes(freeEnd, |SlotsOf(b)[s]|))
    ensures Packed(b, e, s + 1)
  {
    hide Off, Len, Count, FreeEnd, PageLsn, WriteAt, RecordAt, TotalLength, SlotBytes, Structured;
    StructuredCounts(b);
    var slots, n := SlotsOf(b), Count(b);
    var rec := slots[s];
    var top := freeEnd + |rec|;
    TotalStep(slots, s);
    MovedRecord(c, d, e, n, s, rec, freeEnd);
    forall i | 0 <= i < s + 1 ensures PackedSlot(slots, e, i) {
      if i < s {
        assert PackedSlot(slots, c, i) && SameSlot(c, e, i);
        PrefixTotals(slots, i + 1, s);
        PackedSlotFrame(slots, c, e, i, top);
      }
    }
    forall i | s + 1 <= i < n ensures SameSlot(b, e, i) {
      assert SameSlot(b, c, i) && SameSlot(c, e, i);
    }
  }

  /** A record stored at `at` and slot s pointed at it: other slots, the header and the
      bytes above the record stay. */
  lemma MovedRecord(c: seq<Byte>, d: seq<Byte>, e: seq<Byte>, n: nat, s: nat, rec: Record, at: nat)
    requires |c| == PAGE_SIZE && s < n && SlotEnd(n) <= at && at + |rec| <= PAGE_SIZE && |rec| < 0x1_0000
    requires d == WriteAt(c, at, rec) && e == WriteAt(d, SlotEnd(s), SlotBytes(at, |rec|))
    ensures Count(e) == Count(c) && FreeEnd(e) == FreeEnd(c) && PageLsn(e) == PageLsn(c)
    ensures Off(e, s) == at && Len(e, s) == |rec| && e[at..at + |rec|] == rec
    ensures forall i :: 0 <= i < n && i != s ==> SameSlot(c, e, i)
    ensures e[at + |rec|..] == c[at + |rec|..]
  {
    hide Off, Len, Count, FreeEnd, PageLsn, WriteAt, SlotBytes;
    var top := at + |rec|;
    WriteAtElsewhere(c, at, rec, 0, SlotEnd(n));
    assert d[..SlotEnd(n)] == d[0..SlotEnd(n)] && c[..SlotEnd(n)] == c[0..SlotEnd(n)];
    SameLayout(c, d, n);
    SetSlotFields(d, s, at, |rec|, n);
    WriteAtElsewhere(c, at, rec, top, PAGE_SIZE);
    WriteAtThere(c, at, rec);
    SliceLater(d, e, SlotEnd(s + 1), top, PAGE_SIZE);
    SliceLater(d, e, SlotEnd(s + 1), at, top);
    assert e[top..] == e[top..PAGE_SIZE] && c[top..] == c[top..PAGE_SIZE];
    forall i | 0 <= i < n && i != s ensures SameSlot(c, e, i) {
      assert SameSlot(c, d, i) && SameSlot(d, e, i);
    }
  }

  /** Packed slots lie one after another, so they are disjoint. */
  lemma PackedApart(slots: seq<Record>, c: seq<Byte>, i: nat, j: nat)
    requires i < j < |slots| && PackedSlot(slots, c, i) && PackedSlot(slots, c, j)
    ensures Apart(c, i, j)
  {
    hide Off, Len;
    TotalStep(slots, j);
    PrefixTotals(slots, i + 1, j);
  }

  lemma PackedState(b: seq<Byte>, c: seq<Byte>, freeEnd: nat)
    requires Structured(b) && Packed(b, c, Count(b))
    requires freeEnd + TotalLength(SlotsOf(b)) == PAGE_SIZE && FreeEnd(b) <= freeEnd
    ensures var e := WriteAt(c, 2, PutU16(freeEnd));
      Structured(e) && StateOf(e) == Compacted(StateOf(b))
  {
    hide Off, Len, Count, FreeEnd, PageLsn, WriteAt, PutU16, RecordAt;
    StructuredCounts(b);
    var slots, n := SlotsOf(b), Count(b);
    SetFreeEndFields(c, freeEnd, n);
    var e := WriteAt(c, 2, PutU16(freeEnd));
    assert slots[..n] == slots;
    forall i | 0 <= i < n ensures PackedSlot(slots, e, i) && SlotOk(e, i) && RecordAt(e, i) == slots[i] {
      assert PackedSlot(slots, c, i) && SameSlot(c, e, i);
      PrefixTotals(slots, i + 1, n);
      PackedSlotFrame(slots, c, e, i, HEADER_SIZE);
      PackedRecord(slots, e, i);
    }
    forall i, j | 0 <= i < j < n ensures Apart(e, i, j) {
      PackedApart(slots, e, i, j);
    }
    assert SlotsOf(e) == slots;
  }

  lemma PackedRecord(slots: seq<Record>, c: seq<Byte>, i: nat)
    requires PackedSlot(slots, c, i)
    ensures RecordAt(c, i) == slots[i]
    ensures Len(c, i) == 0 || (Off(c, i) == PAGE_SIZE - TotalLength(slots[..i + 1]) && Off(c, i) + Len(c, i) <= PAGE_SIZE)
  {
    hide Off, Len;
    if slots[i] != [] {
      TotalStep(slots, i);
    }
  }

  // ----- The steps of single updates

  lemma PlaceSteps(b: seq<Byte>, c: seq<Byte>, d: seq<Byte>, e: seq<Byte>, f: seq<Byte>, count: nat, slot: nat, rec: Record)
    requires Structured(b) && Count(b) <= count <= Count(b) + 1 && slot < count
    requires Count(b) < count ==> slot + 1 == count
    requires 0 < |rec| <= FreeEnd(b) && SlotEnd(count) + |rec| <= FreeEnd(b)
    requires c == WriteAt(b, FreeEnd(b) - |rec|, rec)
    requires d == WriteAt(c, SlotEnd(slot), SlotBytes(FreeEnd(b) - |rec|, |rec|))
    requires e == WriteAt(d, 0, PutU16(count)) && f == WriteAt(e, 2, PutU16(FreeEnd(b) - |rec|))
    ensures Placed(b, f, count, slot, rec) && PageLsn(f) == PageLsn(b)
  {
    hide Off, Len, Count, FreeEnd, PageLsn, WriteAt, PutU16;
    StructuredCounts(b);
    var at := FreeEnd(b) - |rec|;
    WriteAtElsewhere(b, at, rec, 0, SlotEnd(count));
    assert c[..SlotEnd(count)] == c[0..SlotEnd(count)] && b[..SlotEnd(count)] == b[0..SlotEnd(count)];
    SameLayout(b, c, count);
    SetSlotFields(c, slot, at, |rec|, count);
    SetCountFields(d, count, count);
    SetFreeEndFields(e, at, count);
    WriteAtElsewhere(b, at, rec, FreeEnd(b), PAGE_SIZE);
    WriteAtThere(b, at, rec);
    SliceLater(c, d, SlotEnd(slot + 1), at, FreeEnd(b));
    SliceLater(c, d, SlotEnd(slot + 1), FreeEnd(b), PAGE_SIZE);
    SliceLater(d, e, HEADER_SIZE, at, FreeEnd(b));
    SliceLater(d, e, HEADER_SIZE, FreeEnd(b), PAGE_SIZE);
    SliceLater(e, f, HEADER_SIZE, at, FreeEnd(b));
    SliceLater(e, f, HEADER_SIZE, FreeEnd(b), PAGE_SIZE);
    assert f[FreeEnd(b)..] == f[FreeEnd(b)..PAGE_SIZE] && b[FreeEnd(b)..] == b[FreeEnd(b)..PAGE_SIZE];
    assert SameSlot(d, e, slot) && SameSlot(e, f, slot);
    forall i | 0 <= i < count && i != slot ensures SameSlot(b, f, i) {
      assert SameSlot(b, c, i) && SameSlot(c, d, i) && SameSlot(d, e, i) && SameSlot(e, f, i);
    }
  }

  function Cut(r: Record, n: nat): Record {
    if n <= |r| then r[..n] else r
  }

  lemma U16Below(b: seq<Byte>, i: nat)
    requires |b| == PAGE_SIZE && SlotEnd(i + 1) <= PAGE_SIZE
    ensures Off(b, i) < 0x1_0000 && Len(b, i) < 0x1_0000
  {
  }

  /** A slot whose record became shorter (or dead) at the same offset. */
  lemma Shrunk(b: seq<Byte>, c: seq<Byte>, slot: nat, off: nat, len: nat)
    requires Structured(b) && slot < Count(b) && off == Off(b, slot) && len <= Len(b, slot)
    requires off < 0x1_0000 && len < 0x1_0000
    requires c == WriteAt(b, SlotEnd(slot), SlotBytes(off, len))
    ensures Structured(c) && PageLsn(c) == PageLsn(b) && FreeEnd(c) == FreeEnd(b)
    ensures SlotsOf(c) == SlotsOf(b)[slot := Cut(SlotsOf(b)[slot], len)]
  {
    hide Off, Len, Count, FreeEnd, PageLsn, WriteAt;
    StructuredCounts(b);
    SetSlotFields(b, slot, off, len, Count(b));
    forall i | 0 <= i < Count(b)
      ensures SlotOk(c, i) && RecordAt(c, i) == SlotsOf(b)[slot := Cut(SlotsOf(b)[slot], len)][i]
    {
      assert SlotOk(b, i) && (i != slot ==> SameSlot(b, c, i));
      ShrunkSlot(b, c, slot, len, i);
    }
    forall i, j | 0 <= i < j < Count(b) ensures Apart(c, i, j) {
      assert Apart(b, i, j) && (i != slot ==> SameSlot(b, c, i)) && (j != slot ==> SameSlot(b, c, j));
    }
  }

  lemma ShrunkSlot(b: seq<Byte>, c: seq<Byte>, slot: nat, len: nat, i: nat)
    requires Structured(b) && slot < Count(b) && i < Count(b) && |c| == PAGE_SIZE
    requires SlotOk(b, i) && FreeEnd(c) == FreeEnd(b)
    requires c[SlotEnd(slot + 1)..] == b[SlotEnd(slot + 1)..]
    requires if i == slot then len <= Len(b, i) && Off(c, i) == Off(b, i) && Len(c, i) == len else SameSlot(b, c, i)
    ensures SlotOk(c, i)
    ensures RecordAt(c, i) == if i == slot then Cut(RecordAt(b, i), len) else RecordAt(b, i)
  {
    hide Off, Len, Count, FreeEnd;
    StructuredCounts(b);
    if Len(b, i) != 0 {
      SliceLater(b, c, SlotEnd(slot + 1), Off(b, i), Off(b, i) + Len(b, i));
      if i == slot {
        SliceSlice(c, Off(b, i), Off(b, i) + Len(b, i), 0, len);
      }
    }
  }

  /** Overwriting a record's first bytes leaves the layout and the other records alone. */
  lemma Overwritten(b: seq<Byte>, slot: nat, rec: Record)
    requires Structured(b) && slot < Count(b) && 0 < |rec| <= Len(b, slot)
    requires SlotOk(b, slot)
    ensures var c := WriteAt(b, Off(b, slot), rec);
      && Structured(c) && Count(c) == Count(b) && FreeEnd(c) == FreeEnd(b) && PageLsn(c) == PageLsn(b)
      && SameSlot(b, c, slot) && Cut(RecordAt(c, slot), |rec|) == rec
      && (forall i :: 0 <= i < Count(b) && i != slot ==> SameSlot(b, c, i) && RecordAt(c, i) == RecordAt(b, i))
  {
    hide Off, Len, Count, FreeEnd, PageLsn, WriteAt;
    StructuredCounts(b);
    var n, off := Count(b), Off(b, slot);
    var c := WriteAt(b, off, rec);
    WriteAtElsewhere(b, off, rec, 0, SlotEnd(n));
    assert c[..SlotEnd(n)] == c[0..SlotEnd(n)] && b[..SlotEnd(n)] == b[0..SlotEnd(n)];
    SameLayout(b, c, n);
    forall i | 0 <= i < n ensures SlotOk(c, i) {
      assert SlotOk(b, i) && SameSlot(b, c, i);
    }
    forall i, j | 0 <= i < j < n ensures Apart(c, i, j) {
      assert Apart(b, i, j) && SameSlot(b, c, i) && SameSlot(b, c, j);
    }
    forall i | 0 <= i < n && i != slot ensures RecordAt(c, i) == RecordAt(b, i) {
      assert SlotOk(b, i) && SameSlot(b, c, i);
      assert if i < slot then Apart(b, i, slot) else Apart(b, slot, i);
      if Len(b, i) != 0 {
        WriteAtElsewhere(b, off, rec, Off(b, i), Off(b, i) + Len(b, i));
      }
    }
    WriteAtThere(b, off, rec);
    assert SameSlot(b, c, slot);
    SliceSlice(c, off, off + Len(b, slot), 0, |rec|);
  }

  lemma OverwrittenSlots(b: seq<Byte>, c: seq<Byte>, d: seq<Byte>, slot: nat, rec: Record)
    requires Structured(b) && Structured(c) && Structured(d) && Count(c) == Count(b) && slot < Count(b)
    requires Cut(RecordAt(c, slot), |rec|) == rec
    requires forall i :: 0 <= i < Count(b) && i != slot ==> RecordAt(c, i) == RecordAt(b, i)
    requires SlotsOf(d) == SlotsOf(c)[slot := Cut(SlotsOf(c)[slot], |rec|)]
    ensures SlotsOf(d) == SlotsOf(b)[slot := rec]
  {
    hide Off, Len, Count, FreeEnd, PageLsn, RecordAt;
  }

  /** A change of the LSN field alone. */
  lemma SameRecords(b: seq<Byte>, c: seq<Byte>)
    requires Structured(b) && |c| == PAGE_SIZE && Count(c) == Count(b) && FreeEnd(c) == FreeEnd(b)
    requires forall i :: 0 <= i < Count(b) ==> SameSlot(b, c, i)
    requires c[HEADER_SIZE..] == b[HEADER_SIZE..]
    ensures Structured(c) && SlotsOf(c) == SlotsOf(b)
  {
    hide Off, Len, Count, FreeEnd, PageLsn;
    StructuredCounts(b);
    forall i | 0 <= i < Count(b) ensures SlotOk(c, i) && RecordAt(c, i) == RecordAt(b, i) {
      assert SlotOk(b, i) && SameSlot(b, c, i);
      if Len(b, i) != 0 {
        SliceLater(b, c, HEADER_SIZE, Off(b, i), Off(b, i) + Len(b, i));
      }
    }
    forall i, j | 0 <= i < j < Count(b) ensures Apart(c, i, j) {
      assert Apart(b, i, j) && SameSlot(b, c, i) && SameSlot(b, c, j);
    }
  }

  // ----- Growing the slot array

  /** The page after its slot array was extended with dead slots up to `slot`. */
  function Extended(b: seq<Byte>, slot: nat): (r: seq<Byte>)
    requires |b| == PAGE_SIZE && Count(b) <= slot && SlotEnd(slot + 1) <= PAGE_SIZE
    ensures |r| == PAGE_SIZE
  {
    WriteAt(WriteAt(b, SlotEnd(Count(b)), Zeros(SLOT_SIZE * (slot + 1 - Count(b)))), 0, PutU16(slot + 1))
  }

  lemma ZeroSlot(b: seq<Byte>, count: nat, s: nat)
    requires |b| == PAGE_SIZE && count <= s && SlotEnd(s) <= PAGE_SIZE
    ensures WriteAt(b, SlotEnd(count), Zeros(0)) == b
    ensures SlotEnd(s + 1) <= PAGE_SIZE ==>
      WriteAt(WriteAt(b, SlotEnd(count), Zeros(SLOT_SIZE * (s - count))), SlotEnd(s), SlotBytes(0, 0))
      == WriteAt(b, SlotEnd(count), Zeros(SLOT_SIZE * (s + 1 - count)))
  {
    assert SlotBytes(0, 0) == Zeros(4);
  }

  /** Extension: old slots keep their fields, new ones are dead, the new slot array is zero. */
  lemma ExtendedFields(b: seq<Byte>, slot: nat)
    requires |b| == PAGE_SIZE && Count(b) <= slot && SlotEnd(slot + 1) <= PAGE_SIZE
    ensures var c := Extended(b, slot);
      && Count(c) == slot + 1 && FreeEnd(c) == FreeEnd(b) && PageLsn(c) == PageLsn(b)
      && (forall i :: 0 <= i < Count(b) ==> SameSlot(b, c, i))
      && (forall i :: Count(b) <= i <= slot ==> Dead(c, i))
      && c[SlotEnd(slot + 1)..] == b[SlotEnd(slot + 1)..]
      && (forall x :: SlotEnd(Count(b)) <= x < SlotEnd(slot + 1) ==> c[x] == 0)
  {
    hide Off, Len, Count, FreeEnd, PageLsn, WriteAt, PutU16;
    var n, end := Count(b), SlotEnd(slot + 1);
    var z := Zeros(SLOT_SIZE * (slot + 1 - n));
    var d := WriteAt(b, SlotEnd(n), z);
    var c := Extended(b, slot);
    WriteAtElsewhere(b, SlotEnd(n), z, 0, SlotEnd(n));
    assert d[..SlotEnd(n)] == d[0..SlotEnd(n)] && b[..SlotEnd(n)] == b[0..SlotEnd(n)];
    SameLayout(b, d, n);
    WriteAtElsewhere(b, SlotEnd(n), z, end, PAGE_SIZE);
    WriteAtThere(b, SlotEnd(n), z);
    SetCountFields(d, slot + 1, slot + 1);
    assert SlotEnd(n) + |z| == end;
    SliceLater(d, c, HEADER_SIZE, end, PAGE_SIZE);
    SliceLater(d, c, HEADER_SIZE, SlotEnd(n), end);
    assert c[end..] == c[end..PAGE_SIZE] && b[end..] == b[end..PAGE_SIZE];
    forall x | SlotEnd(n) <= x < end ensures c[x] == 0 {
      assert c[x] == c[SlotEnd(n)..end][x - SlotEnd(n)] == z[x - SlotEnd(n)];
    }
    forall i | 0 <= i < n ensures SameSlot(b, c, i) {
      assert SameSlot(b, d, i) && SameSlot(d, c, i);
    }
    forall i | n <= i <= slot ensures Dead(c, i) {
      assert SameSlot(d, c, i);
      ZeroLength(c, i);
    }
  }

  lemma ZeroLength(c: seq<Byte>, i: nat)
    requires |c| == PAGE_SIZE && SlotEnd(i + 1) <= PAGE_SIZE
    requires forall x :: SlotEnd(i) <= x < SlotEnd(i + 1) ==> c[x] == 0
    ensures Len(c, i) == 0
  {
  }

  lemma ExtendedState(b: seq<Byte>, slot: nat)
    requires Structured(b) && Count(b) <= slot && SlotEnd(slot + 1) <= FreeEnd(b)
    ensures Structured(Extended(b, slot))
    ensures StateOf(Extended(b, slot)) == StateOf(b).(slots := Pad(SlotsOf(b), slot + 1))
  {
    hide Off, Len, Count, FreeEnd, PageLsn, Extended;
    StructuredCounts(b);
    ExtendedFields(b, slot);
    var d, count := Extended(b, slot), slot + 1;
    forall i | 0 <= i < count ensures SlotOk(d, i) && RecordAt(d, i) == Pad(SlotsOf(b), count)[i] {
      if i < Count(b) {
        assert SlotOk(b, i) && SameSlot(b, d, i);
        if Len(b, i) != 0 {
          SliceLater(b, d, SlotEnd(count), Off(b, i), Off(b, i) + Len(b, i));
        }
      } else {
        assert Dead(d, i);
      }
    }
    forall i, j | 0 <= i < j < count ensures Apart(d, i, j) {
      if j < Count(b) {
        assert Apart(b, i, j) && SameSlot(b, d, i) && SameSlot(b, d, j);
      } else {
        assert Dead(d, j);
      }
    }
    assert SlotsOf(d) == Pad(SlotsOf(b), count);
  }

  /** Byte x belongs to a live record. */
  ghost predicate Occupied(b: seq<Byte>, x: nat)
    requires Structured(b)
  {
    exists i :: 0 <= i < Count(b) && Occupies(b, i, x)
  }

  /** A slot keeps its record exactly when the bytes it occupies stay. */
  lemma RecordStaysIff(b: seq<Byte>, c: seq<Byte>, i: nat)
    requires |b| == |c| == PAGE_SIZE && SlotEnd(i + 1) <= PAGE_SIZE && SlotOk(b, i) && SameSlot(b, c, i)
    ensures RecordAt(c, i) == RecordAt(b, i) <==> forall x :: 0 <= x < PAGE_SIZE && Occupies(b, i, x) ==> c[x] == b[x]
  {
    hide Off, Len, FreeEnd;
    if Len(b, i) != 0 {
      var lo, hi := Off(b, i), Off(b, i) + Len(b, i);
      assert RecordAt(b, i) == b[lo..hi] && RecordAt(c, i) == c[lo..hi];
      if b[lo..hi] == c[lo..hi] {
        forall x | lo <= x < hi ensures c[x] == b[x] {
          assert c[lo..hi][x - lo] == b[lo..hi][x - lo];
        }
      }
      if forall x :: 0 <= x < PAGE_SIZE && Occupies(b, i, x) ==> c[x] == b[x] {
        assert forall x :: lo <= x < hi ==> Occupies(b, i, x);
      }
    }
  }

  /** Extension changes an occupied byte exactly when the grown array takes it and it is not zero. */
  lemma ByteStaysIff(b: seq<Byte>, slot: nat, i: nat, x: nat)
    requires Structured(b) && Count(b) <= slot && SlotEnd(slot + 1) <= PAGE_SIZE
    requires i < Count(b) && x < PAGE_SIZE && Occupies(b, i, x)
    ensures |Extended(b, slot)| == PAGE_SIZE
    ensures Extended(b, slot)[x] == b[x] <==> (SlotEnd(Count(b)) <= x < SlotEnd(slot + 1) ==> b[x] == 0)
  {
    hide Off, Len, Count, FreeEnd, PageLsn, Extended;
    StructuredCounts(b);
    ExtendedFields(b, slot);
    assert SlotOk(b, i) && SameSlot(b, Extended(b, slot), i);
    var end := SlotEnd(slot + 1);
    if end <= x {
      assert Extended(b, slot)[end..][x - end] == b[end..][x - end];
    }
  }

  /** Recovery extends the slot array without looking for records in its way. Every record
      survives exactly when the bytes it overwrites are free or already zero. */
  lemma ExtensionKeepsRecordsIff(b: seq<Byte>, slot: nat)
    requires Structured(b) && Count(b) <= slot && SlotEnd(slot + 1) <= PAGE_SIZE
    ensures (forall i :: 0 <= i < Count(b) ==> RecordAt(Extended(b, slot), i) == RecordAt(b, i))
      <==> (forall x :: SlotEnd(Count(b)) <= x < SlotEnd(slot + 1) && Occupied(b, x) ==> b[x] == 0)
  {
    hide Off, Len, Count, FreeEnd, PageLsn, Extended, RecordAt, Occupies, SlotOk, Apart;
    StructuredCounts(b);
    ExtendedFields(b, slot);
    var c := Extended(b, slot);
    forall i | 0 <= i < Count(b)
      ensures RecordAt(c, i) == RecordAt(b, i) <==> forall x :: SlotEnd(Count(b)) <= x < SlotEnd(slot + 1) && Occupies(b, i, x) ==> b[x] == 0
    {
      assert SlotOk(b, i) && SameSlot(b, c, i);
      RecordStaysIff(b, c, i);
      forall x | 0 <= x < PAGE_SIZE && Occupies(b, i, x)
        ensures c[x] == b[x] <==> (SlotEnd(Count(b)) <= x < SlotEnd(slot + 1) ==> b[x] == 0)
      {
        ByteStaysIff(b, slot, i, x);
      }
    }
    if forall i :: 0 <= i < Count(b) ==> RecordAt(c, i) == RecordAt(b, i) {
      forall x | SlotEnd(Count(b)) <= x < SlotEnd(slot + 1) && Occupied(b, x)
        ensures b[x] == 0
      {
        var i :| 0 <= i < Count(b) && Occupies(b, i, x);
        assert RecordAt(c, i) == RecordAt(b, i);
      }
    }
    assert forall i, x :: 0 <= i < Count(b) && Occupies(b, i, x) ==> Occupied(b, x);
  }

  /** With the guard, which a caller can test on the page, every record survives. */
  lemma GrowableKeepsRecords(b: seq<Byte>, slot: nat)
    requires Structured(b) && Count(b) <= slot && SlotEnd(slot + 1) <= PAGE_SIZE && CanGrow(StateOf(b), slot)
    ensures forall i :: 0 <= i < Count(b) ==> RecordAt(Extended(b, slot), i) == RecordAt(b, i)
  {
    hide Off, Len, Count, FreeEnd, PageLsn, Extended, RecordAt;
    StructuredCounts(b);
    forall x | SlotEnd(Count(b)) <= x < SlotEnd(slot + 1)
      ensures !Occupied(b, x)
    {
      forall i | 0 <= i < Count(b)
        ensures !Occupies(b, i, x)
      {
        assert SlotOk(b, i);
      }
    }
    ExtensionKeepsRecordsIff(b, slot);
  }

  /** A page that one record of ones fills. */
  function FullPage(): (b: seq<Byte>)
    ensures |b| == PAGE_SIZE
  {
    PutU16(1) + PutU16(16) + Zeros(8) + PutU16(16) + PutU16(4080) + seq(4080, _ => 1)
  }

  lemma FullPageFields()
    ensures Count(FullPage()) == 1 && FreeEnd(FullPage()) == 16
    ensures Off(FullPage(), 0) == 16 && Len(FullPage(), 0) == 4080 && FullPage()[16] == 1
  {
    hide PutU16, GetU16;
    var b := FullPage();
    assert b[0..2] == PutU16(1) && b[2..4] == PutU16(16);
    assert b[12..14] == PutU16(16) && b[14..16] == PutU16(4080);
    U16RoundTrip(1);
    U16RoundTrip(16);
    U16RoundTrip(4080);
  }

  /** Without the guard a record can be lost: redo of a second row on a full page zeroes the first
      four bytes of the first one. */
  lemma ExtensionLosesRecord()
    ensures Structured(FullPage()) && !CanGrow(StateOf(FullPage()), 1)
    ensures Count(FullPage()) == 1 && RecordAt(Extended(FullPage(), 1), 0) != RecordAt(FullPage(), 0)
  {
    hide Off, Len, Count, FreeEnd, PageLsn, Extended, FullPage, RecordAt;
    var b := FullPage();
    FullPageFields();
    assert SlotOk(b, 0);
    assert Structured(b);
    assert Occupies(b, 0, 16);
    assert Occupied(b, 16);
    ExtensionKeepsRecordsIff(b, 1);
  }
}
