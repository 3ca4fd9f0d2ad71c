/** Heap tables on the buffer pool's slotted pages: from a record id to the bytes of a row, where
    a row goes, and the iterator that lists a table's rows. */
module HeapTable {
  import opened Values
  import opened Bytes
  import opened PageLayout
  import opened SlottedPage
  import opened BufferPool

  const NO_RID := RecordID(-1, -1)

  type Slots = seq<Record>

  /** The space an insertion can use on a page with these slots. */
  function Usable(slots: Slots): int {
    UsableSpace(PageState(0, slots, PAGE_SIZE))
  }

  predicate Takes(slots: Slots, rec: Record) {
    0 < |rec| && |rec| + SLOT_SIZE <= Usable(slots)
  }

  function PageSlots(pages: map<int, Slots>, pid: int): Slots {
    if pid in pages then pages[pid] else []
  }

  /** What a place holds; empty when no row is there. */
  function RowAt(pages: map<int, Slots>, rid: RecordID): Record {
    var slots := PageSlots(pages, rid.page);
    if 0 <= rid.slot < |slots| then slots[rid.slot] else []
  }

  /** Only one place differs. */
  ghost predicate OnlyRow(pages: map<int, Slots>, pages': map<int, Slots>, rid: RecordID) {
    forall other: RecordID :: other != rid ==> RowAt(pages', other) == RowAt(pages, other)
  }

  ghost predicate Distinct(list: seq<int>) {
    forall i, j :: 0 <= i < j < |list| ==> list[i] != list[j]
  }

  /** Each table's pages are heap pages, listed once and for one table. */
  ghost predicate ListsOk(lists: map<int, seq<int>>, heap: set<int>) {
    && (forall t :: t in lists ==> Distinct(lists[t]) && forall i :: 0 <= i < |lists[t]| ==> lists[t][i] in heap)
    && forall t, u, i, j :: t in lists && u in lists && t != u && 0 <= i < |lists[t]| && 0 <= j < |lists[u]| ==> lists[t][i] != lists[u][j]
  }

  lemma ListsWith(lists: map<int, seq<int>>, heap: set<int>, t: int, pid: int)
    requires ListsOk(lists, heap) && pid !in heap && t in lists
    ensures ListsOk(lists[t := lists[t] + [pid]], heap + {pid})
  {
  }

  /** A record appended to a page fills an unused place and changes no other. */
  lemma AppendedRow(pages: map<int, Slots>, pid: int, rec: Record)
    requires pid in pages
    ensures var rid, pages' := RecordID(pid, |pages[pid]|), pages[pid := pages[pid] + [rec]];
      RowAt(pages, rid) == [] && RowAt(pages', rid) == rec && OnlyRow(pages, pages', rid)
  {
  }

  /** A buffered page nobody holds is on the LRU list. */
  lemma IdleInLru(frames: Frames, table: Table, lru: seq<int>, unpinned: map<int, nat>, clock: nat, id: int)
    requires TableOk(frames, table) && LruOk(frames, lru, unpinned, clock) && id in table && PinsIn(frames, table, id) == 0
    ensures lru != []
  {
    assert Idle(frames[table[id]]);
    assert table[id] in lru;
  }

  lemma PageSize(b: seq<Byte>)
    requires Structured(b)
    ensures |b| == PAGE_SIZE && StateOf(b).slots == SlotsOf(b)
  {
  }

  lemma CountIs(b: seq<Byte>)
    requires Structured(b)
    ensures Count(b) == |StateOf(b).slots|
  {
  }

  lemma PinnedIfPins(frames: Frames, table: Table, id: int)
    ensures PinnedIn(frames, table, id) <==> PinsIn(frames, table, id) > 0
  {
  }

  class Tables {
    const pool: Pool
    var lists: map<int, seq<int>>
    var pageFree: map<int, int>
    ghost var heap: set<int>

    constructor (pool: Pool)
      requires pool.Valid() && pool.touched == {} && forall id :: id in pool.table ==> id < pool.numPages
      ensures Valid() && this.pool == pool && heap == {} && lists == map[]
    {
      this.pool, lists, pageFree, heap := pool, map[], map[], {};
    }

    /** Heap pages are slotted pages of the disk; nobody has a change to report. */
    ghost predicate Valid()
      reads this`lists, this`heap, pool
    {
      && pool.Valid() && pool.touched == {} && (forall id :: id in pool.table ==> id < pool.numPages)
      && (forall pid :: pid in heap ==> 0 <= pid < pool.numPages && Structured(pool.Latest(pid)))
      && ListsOk(lists, heap)
    }

    /** What the heap pages hold, wherever their newest content is. */
    ghost function Pages(): (m: map<int, Slots>)
      requires Valid()
      reads this`lists, this`heap, pool
      ensures m.Keys == heap
    {
      map pid | pid in heap :: SlotsOf(pool.Latest(pid))
    }

    ghost function Row(rid: RecordID): Record
      requires Valid()
      reads this`lists, this`heap, pool
    {
      RowAt(Pages(), rid)
    }

    function List(t: int): seq<int>
      reads this`lists
    {
      if t in lists then lists[t] else []
    }

    /** Heap pages a frame can be had for: all of them, unless every frame is pinned. */
    ghost function Served(): (s: set<int>)
      reads this`heap, pool
    {
      if pool.freeList != [] || pool.lru != [] then heap else set pid | pid in heap && pid in pool.table
    }

    /** The same once the caller's own pin of a page is given back: its frame is then free. */
    ghost function ServedUnpinned(pid: int): set<int>
      reads this`heap, pool
    {
      if pool.Pins(pid) == 1 then heap else Served()
    }

    /** Listed pages are heap pages. */
    lemma Listed(t: int)
      requires Valid()
      ensures forall i :: 0 <= i < |List(t)| ==> List(t)[i] in Pages()
    {
    }

    /** An unshared page is idle or not buffered. */
    lemma Shared(pid: int)
      requires Valid()
      ensures pool.Pins(pid) == 0 && pid in pool.table ==> pool.lru != []
    {
      hide LruOk, TableOk, PinsIn;
      if pool.Pins(pid) == 0 && pid in pool.table {
        IdleInLru(pool.frames, pool.table, pool.lru, pool.unpinned, pool.clock, pid);
      }
    }

    /** Pins a page. */
    method Open(pid: int) returns (page: Page?)
      requires Valid() && pid in heap
      modifies pool
      ensures Valid() && Pages() == old(Pages()) && pool.numPages == old(pool.numPages)
      ensures page == null <==> pid !in old(Served())
      ensures page == null ==> Served() == old(Served())
      ensures page != null ==> fresh(page) && fresh(page.bytes) && page.Valid() && page.State().slots == Pages()[pid]
      ensures page != null ==> pool.Pinned(pid) && ServedUnpinned(pid) == old(Served())
    {
      hide Structured, StateOf, SlotsOf, TableOk, LruOk, FreeOk, CleanOk, TouchedOk, ListsOk, PinsIn, LatestIn;
      PageSize(pool.Latest(pid));
      PinnedIfPins(pool.frames, pool.table, pid);
      Shared(pid);
      var f := pool.FetchPage(pid);
      assert pool.SamePages();
      forall id: int ensures pool.Latest(id) == old(pool.Latest(id)) {
      }
      PinnedIfPins(pool.frames, pool.table, pid);
      if f == -1 {
        return null;
      }
      page := new Page.From(pool.frames[f].content);
    }

    /** Gives a page back, with or without a change of its slots. */
    method Close(pid: int, page: Page, dirty: bool)
      requires Valid() && pid in heap && pool.Pinned(pid) && page.Valid()
      requires !dirty ==> page.State().slots == Pages()[pid]
      modifies pool
      ensures Valid() && Pages() == old(Pages())[pid := page.State().slots] && pool.numPages == old(pool.numPages)
      ensures Served() == old(ServedUnpinned(pid))
    {
      hide Structured, StateOf, SlotsOf, TableOk, LruOk, FreeOk, CleanOk, TouchedOk, ListsOk, LatestIn;
      if dirty {
        pool.Modify(pid, page.bytes[..]);
      }
      PageSize(page.bytes[..]);
      var ok := pool.Unpin(pid, dirty);
    }

    /** Tries a page: the record becomes its last slot if there is space. */
    method InsertOn(pid: int, rec: Record) returns (served: bool, slot: int)
      requires Valid() && pid in heap
      modifies this`pageFree, pool
      ensures Valid() && Served() == old(Served()) && served == (pid in old(Served())) && pool.numPages == old(pool.numPages)
      ensures slot == -1 <==> !served || !Takes(old(Pages())[pid], rec)
      ensures slot == -1 ==> Pages() == old(Pages())
      ensures slot != -1 ==> slot == |old(Pages())[pid]| && Pages() == old(Pages())[pid := old(Pages())[pid] + [rec]]
      ensures pageFree - {pid} == old(pageFree) - {pid}
    {
      hide Structured, StateOf, SlotsOf, TableOk, LruOk, FreeOk, CleanOk, TouchedOk, ListsOk, LatestIn, PinsIn, WithRecord, PadFits, TotalLength, Pages, Served, ServedUnpinned, Valid;
      ghost var before := Pages();
      var page := Open(pid);
      if page == null {
        return false, -1;
      }
      var ok, at := page.Insert(rec);
      var free := page.Usable();
      pageFree := pageFree[pid := free];
      Close(pid, page, ok);
      served, slot := true, if ok then at else -1;
    }

    method GetTuple(rid: RecordID) returns (found: bool, rec: Record)
      requires Valid() && rid.page in heap
      modifies pool
      ensures Valid() && Pages() == old(Pages()) && Served() == old(Served())
      ensures found <==> rid.page in Served() && Row(rid) != []
      ensures found ==> rec == Row(rid)
    {
      hide Structured, StateOf, SlotsOf, TableOk, LruOk, FreeOk, CleanOk, TouchedOk, ListsOk, LatestIn, PinsIn, TotalLength, Pages, Served, ServedUnpinned, Valid;
      ghost var before := Pages();
      found, rec := false, [];
      var page := Open(rid.page);
      if page == null {
        return;
      }
      found, rec := page.Get(rid.slot);
      Close(rid.page, page, false);
      assert Pages() == before;
    }

    /** Looks for a live slot of a page, from one on. */
    method FindLive(pid: int, from: nat) returns (served: bool, at: nat, rec: Record)
      requires Valid() && pid in heap
      modifies pool
      ensures Valid() && Pages() == old(Pages()) && Served() == old(Served()) && served == (pid in Served())
      ensures served ==> at >= from && (forall s :: from <= s < at && s < |Pages()[pid]| ==> Pages()[pid][s] == [])
      ensures served && at < |Pages()[pid]| ==> rec == Pages()[pid][at] != []
      ensures served && at >= |Pages()[pid]| ==> rec == []
    {
      hide Structured, StateOf, SlotsOf, TableOk, LruOk, FreeOk, CleanOk, TouchedOk, ListsOk, LatestIn, PinsIn, TotalLength, Pages, Served, ServedUnpinned, Valid;
      ghost var before := Pages();
      at, rec := from, [];
      var page := Open(pid);
      if page == null {
        return false, at, rec;
      }
      served := true;
      var count := page.SlotCount();
      CountIs(page.bytes[..]);
      while at < count
        invariant at >= from && page.Valid() && page.State().slots == before[pid] && |before[pid]| == count
        invariant forall s :: from <= s < at && s < count ==> before[pid][s] == []
        modifies {}
      {
        var found, here := page.Get(at);
        if found {
          rec := here;
          break;
        }
        at := at + 1;
      }
      Close(pid, page, false);
      assert Pages() == before;
    }

    method EraseTuple(rid: RecordID) returns (ok: bool)
      requires Valid() && rid.page in heap
      modifies this`pageFree, pool
      ensures Valid() && Served() == old(Served()) && ok == (rid.page in old(Served()) && old(Row(rid)) != [])
      ensures Row(rid) == (if ok then [] else old(Row(rid))) && OnlyRow(old(Pages()), Pages(), rid)
    {
      hide Structured, StateOf, SlotsOf, TableOk, LruOk, FreeOk, CleanOk, TouchedOk, ListsOk, LatestIn, PinsIn, TotalLength, RowAt, OnlyRow, Pages, Served, ServedUnpinned, Valid;
      ghost var before := Pages();
      SameRows(before);
      LiveRow(before, rid);
      var page := Open(rid.page);
      if page == null {
        return false;
      }
      ok := page.Erase(rid.slot);
      if ok {
        RowSet(before, rid, []);
        var free := page.Usable();
        pageFree := pageFree[rid.page := free];
      }
      Close(rid.page, page, ok);
      assert !ok ==> Pages() == before;
    }

    /** Replaces a row in place, or else takes it away. */
    method ReplaceOrErase(rid: RecordID, rec: Record) returns (served: bool, ok: bool)
      requires Valid() && rid.page in heap
      modifies this`pageFree, pool
      ensures Valid() && Served() == old(Served()) && served == (rid.page in old(Served())) && pool.numPages == old(pool.numPages)
      ensures ok == (served && 0 < |rec| <= |old(Row(rid))|)
      ensures Row(rid) == (if !served then old(Row(rid)) else if ok then rec else []) && OnlyRow(old(Pages()), Pages(), rid)
    {
      hide Structured, StateOf, SlotsOf, TableOk, LruOk, FreeOk, CleanOk, TouchedOk, ListsOk, LatestIn, PinsIn, TotalLength, RowAt, OnlyRow, Pages, Served, ServedUnpinned, Valid;
      ghost var before := Pages();
      SameRows(before);
      LiveRow(before, rid);
      var page := Open(rid.page);
      if page == null {
        return false, false;
      }
      served := true;
      ok := page.Update(rid.slot, rec);
      var erased := false;
      if ok {
        RowSet(before, rid, rec);
      } else {
        erased := page.Erase(rid.slot);
        if erased {
          RowSet(before, rid, []);
          var free := page.Usable();
          pageFree := pageFree[rid.page := free];
        }
      }
      Close(rid.page, page, ok || erased);
      assert !ok && !erased ==> Pages() == before;
    }

    /** A new page at the end of a table's list, pinned. */
    method OpenNew(t: int) returns (page: Page?, pid: int)
      requires Valid() && t in lists
      modifies this`lists, this`heap, pool
      ensures Valid() && (forall u :: u != t ==> List(u) == old(List(u)))
      ensures page == null ==> Pages() == old(Pages()) && List(t) == old(List(t)) && pool.freeList == [] && pool.lru == []
      ensures page != null ==> pid !in old(heap) && pid in heap && Pages() == old(Pages())[pid := []] && List(t) == old(List(t)) + [pid]
      ensures page != null ==> fresh(page) && fresh(page.bytes) && page.Valid() && page.State().slots == [] && pool.Pinned(pid)
    {
      hide Structured, StateOf, SlotsOf, TableOk, LruOk, FreeOk, CleanOk, TouchedOk, ListsOk, LatestIn, PinsIn, TotalLength, InitialPage, BlankPage, Distinct;
      ghost var before := Pages();
      var id, f := pool.NewPage();
      pid := id;
      if f == -1 {
        assert Pages() == before;
        return null, pid;
      }
      InitialIsEmpty();
      ListsWith(lists, heap, t, pid);
      FrameIsLatest(pool.frames, pool.table, pool.disk, pid);
      page := new Page.From(pool.frames[f].content);
      PageSize(page.bytes[..]);
      lists := lists[t := lists[t] + [pid]];
      heap := heap + {pid};
      assert Pages() == before[pid := []];
    }

    method InsertOnNewPage(t: int, rec: Record) returns (rid: RecordID)
      requires Valid() && t in lists
      modifies this, pool
      ensures Valid() && (forall u :: u != t ==> List(u) == old(List(u))) && old(List(t)) <= List(t)
      ensures rid == NO_RID ==> forall other: RecordID :: Row(other) == old(Row(other))
      ensures rid != NO_RID ==> rid.page in List(t) && rid.page in heap && rid.slot >= 0 && old(Row(rid)) == [] && Row(rid) == rec && OnlyRow(old(Pages()), Pages(), rid)
      ensures Takes([], rec) && rid == NO_RID ==> pool.freeList == [] && pool.lru == []
    {
      hide Structured, StateOf, SlotsOf, TableOk, LruOk, FreeOk, CleanOk, TouchedOk, ListsOk, LatestIn, PinsIn, TotalLength, WithRecord, PadFits, RowAt, OnlyRow, Pages, Served, ServedUnpinned, Valid;
      ghost var before := Pages();
      SameRows(before);
      var page, pid := OpenNew(t);
      if page == null {
        return NO_RID;
      }
      ghost var grown := Pages();
      EmptyPageRows(before, pid, rec);
      var ok, slot := page.Insert(rec);
      if ok {
        var free := page.Usable();
        pageFree := pageFree[pid := free];
      }
      Close(pid, page, ok);
      assert [] + [rec] == [rec];
      rid := if ok then RecordID(pid, slot) else NO_RID;
      assert Pages() == if ok then grown[pid := [rec]] else grown;
    }

    /** A page that an insertion does not use: a hint calls it full, no frame can be had for it, or
        it does not take the row. */
    ghost predicate PassedOver(pid: int, rec: Record)
      requires Valid() && pid in heap
      reads this`lists, this`heap, this`pageFree, pool
    {
      (pid in pageFree && pageFree[pid] < |rec| + SLOT_SIZE) || pid !in Served() || !Takes(Pages()[pid], rec)
    }

    /** The pages of a table behind the page of a row, or all of them if it is on a new page. */
    ghost predicate AllPassedOver(list: seq<int>, from: nat, rec: Record)
      requires Valid()
      reads this`lists, this`heap, this`pageFree, pool
    {
      forall i :: from <= i < |list| && list[i] in heap ==> PassedOver(list[i], rec)
    }

    /** Puts a row on the last page of its table that takes it, passing over pages that a hint
        calls full or that no frame can be had for, or else on a new page. Some unused place then
        holds the row; no other place changes. */
    method InsertTuple(t: int, rec: Record) returns (rid: RecordID)
      requires Valid()
      modifies this, pool
      ensures Valid() && (forall u :: u != t ==> List(u) == old(List(u))) && old(List(t)) <= List(t)
      ensures rid == NO_RID ==> forall other: RecordID :: Row(other) == old(Row(other))
      ensures rid != NO_RID ==> rid.page in List(t) && rid.page in heap && rid.slot >= 0 && old(Row(rid)) == [] && Row(rid) == rec && OnlyRow(old(Pages()), Pages(), rid)
      ensures Takes([], rec) && rid == NO_RID ==> pool.freeList == [] && pool.lru == []
      ensures forall k :: 0 <= k <= |old(List(t))| && rid.page !in old(List(t))[k..] ==> old(AllPassedOver(List(t), k, rec))
    {
      hide Structured, StateOf, SlotsOf, TableOk, LruOk, FreeOk, CleanOk, TouchedOk, LatestIn, PinsIn, TotalLength;
      if t !in lists {
        lists := lists[t := []];
      }
      assert Pages() == old(Pages());
      var list := lists[t];
      var i := |list|;
      while i > 0
        invariant 0 <= i <= |list| && Valid() && Pages() == old(Pages()) && t in lists && list == lists[t]
        invariant (forall u :: u != t ==> List(u) == old(List(u))) && list == old(List(t)) && Served() == old(Served())
        invariant old(AllPassedOver(list, i, rec)) && SameHints(list[..i], pageFree, old(pageFree))
      {
        i := i - 1;
        var pid := list[i];
        HintsStep(list, i, pageFree, old(pageFree));
        if pid in pageFree && pageFree[pid] < |rec| + SLOT_SIZE {
          continue;
        }
        label tried:
        var served, slot := InsertOn(pid, rec);
        HintsKept(list[..i], pid, old@tried(pageFree), pageFree, old(pageFree));
        if slot != -1 {
          rid := RecordID(pid, slot);
          AppendedRow(old(Pages()), pid, rec);
          return;
        }
      }
      rid := InsertOnNewPage(t, rec);
    }

    /** Replaces a row: in place when the new content is no longer than the old, otherwise at a
        new place. The row is gone from its old place when no new place could be had. */
    method UpdateTuple(t: int, rid: RecordID, rec: Record) returns (out: RecordID)
      requires Valid() && rid.page in heap
      modifies this, pool
      ensures Valid()
      ensures rid.page !in old(Served()) ==> out == NO_RID && forall other: RecordID :: Row(other) == old(Row(other))
      ensures rid.page in old(Served()) && 0 < |rec| <= |old(Row(rid))| ==> out == rid && Row(rid) == rec && OnlyRow(old(Pages()), Pages(), rid)
      ensures rid.page in old(Served()) && !(0 < |rec| <= |old(Row(rid))|) && out != NO_RID ==> Row(out) == rec && out.page in List(t) && (out == rid || Row(rid) == [])
      ensures rid.page in old(Served()) && !(0 < |rec| <= |old(Row(rid))|) && out == NO_RID ==> Row(rid) == []
      ensures forall other: RecordID :: other != rid && other != out ==> Row(other) == old(Row(other))
      ensures out != NO_RID && out != rid ==> old(Row(out)) == []
    {
      hide Structured, StateOf, SlotsOf, TableOk, LruOk, FreeOk, CleanOk, TouchedOk, ListsOk, LatestIn, PinsIn, TotalLength;
      var served, ok := ReplaceOrErase(rid, rec);
      if !served {
        assert forall other: RecordID :: Row(other) == old(Row(other));
        return NO_RID;
      }
      if ok {
        return rid;
      }
      out := InsertTuple(t, rec);
    }
  }

  /** The hint for a page is the same. */
  predicate SameHint(p: int, a: map<int, int>, b: map<int, int>) {
    (p in a <==> p in b) && (p in a ==> a[p] == b[p])
  }

  ghost predicate SameHints(pids: seq<int>, a: map<int, int>, b: map<int, int>) {
    forall i :: 0 <= i < |pids| ==> SameHint(pids[i], a, b)
  }

  lemma HintsStep(list: seq<int>, i: nat, a: map<int, int>, b: map<int, int>)
    requires i < |list| && SameHints(list[..i + 1], a, b)
    ensures SameHints(list[..i], a, b) && SameHint(list[i], a, b)
  {
    hide SameHint;
    assert list[..i + 1][i] == list[i];
    forall j | 0 <= j < i ensures SameHint(list[..i][j], a, b) {
      assert list[..i + 1][j] == list[..i][j];
    }
  }

  lemma HintsKept(pids: seq<int>, pid: int, before: map<int, int>, after: map<int, int>, b: map<int, int>)
    requires SameHints(pids, before, b) && before - {pid} == after - {pid} && pid !in pids
    ensures SameHints(pids, after, b)
  {
    forall i | 0 <= i < |pids| ensures SameHint(pids[i], after, b) {
      var p := pids[i];
      assert SameHint(p, before, b);
      assert p in before <==> p in before - {pid};
      assert p in after <==> p in after - {pid};
      assert p in after ==> (after - {pid})[p] == after[p] && (before - {pid})[p] == before[p];
    }
  }

  lemma InitialIsEmpty()
    ensures Structured(InitialPage()) && SlotsOf(InitialPage()) == [] && |InitialPage()| == PAGE_SIZE
  {
    hide Structured, StateOf, SlotsOf, WriteAt;
    EmptyFields();
    PageSize(InitialPage());
  }

  lemma FrameIsLatest(frames: Frames, table: Table, disk: Disk, id: int)
    requires PinnedIn(frames, table, id)
    ensures LatestIn(frames, table, disk, id) == frames[table[id]].content
  {
  }

  lemma SameRows(pages: map<int, Slots>)
    ensures forall rid :: OnlyRow(pages, pages, rid)
  {
  }

  lemma LiveRow(pages: map<int, Slots>, rid: RecordID)
    requires rid.page in pages
    ensures RowAt(pages, rid) == if 0 <= rid.slot < |pages[rid.page]| then pages[rid.page][rid.slot] else []
  {
  }

  /** One slot written is one row written. */
  lemma RowSet(pages: map<int, Slots>, rid: RecordID, rec: Record)
    requires rid.page in pages && 0 <= rid.slot < |pages[rid.page]|
    ensures var pages' := pages[rid.page := pages[rid.page][rid.slot := rec]];
      RowAt(pages', rid) == rec && OnlyRow(pages, pages', rid)
  {
  }

  /** A page that joins the heap adds no row, and then the one inserted. */
  lemma EmptyPageRows(pages: map<int, Slots>, pid: int, rec: Record)
    requires pid !in pages
    ensures forall other: RecordID :: RowAt(pages[pid := []], other) == RowAt(pages, other)
    ensures RowAt(pages, RecordID(pid, 0)) == [] && RowAt(pages[pid := [rec]], RecordID(pid, 0)) == rec
    ensures OnlyRow(pages, pages[pid := [rec]], RecordID(pid, 0))
    ensures pages[pid := []][pid := [rec]] == pages[pid := [rec]]
  {
  }

  // ----- Listing rows

  datatype Tuple = Tuple(rid: RecordID, bytes: Record)

  /** The live rows of a page from a slot on. */
  function LiveOn(pid: int, slots: Slots, slot: nat): seq<Tuple>
    decreases |slots| - slot
  {
    if slot >= |slots| then []
    else (if slots[slot] != [] then [Tuple(RecordID(pid, slot), slots[slot])] else []) + LiveOn(pid, slots, slot + 1)
  }

  /** The live rows of the pages that can be fetched, from a page and a slot on. */
  function LiveFrom(pages: map<int, Slots>, list: seq<int>, served: set<int>, at: nat, slot: nat): seq<Tuple>
    decreases |list| - at
  {
    if at >= |list| then []
    else (if list[at] in served then LiveOn(list[at], PageSlots(pages, list[at]), slot) else []) + LiveFrom(pages, list, served, at + 1, 0)
  }

  lemma UnfoldOn(pid: int, slots: Slots, slot: nat)
    ensures slot >= |slots| ==> LiveOn(pid, slots, slot) == []
    ensures slot < |slots| && slots[slot] == [] ==> LiveOn(pid, slots, slot) == LiveOn(pid, slots, slot + 1)
    ensures slot < |slots| && slots[slot] != [] ==> LiveOn(pid, slots, slot) == [Tuple(RecordID(pid, slot), slots[slot])] + LiveOn(pid, slots, slot + 1)
  {
  }

  lemma UnfoldFrom(pages: map<int, Slots>, list: seq<int>, served: set<int>, at: nat, slot: nat)
    ensures at >= |list| ==> LiveFrom(pages, list, served, at, slot) == []
    ensures at < |list| && list[at] !in served ==> LiveFrom(pages, list, served, at, slot) == LiveFrom(pages, list, served, at + 1, 0)
    ensures at < |list| && list[at] in served ==>
        LiveFrom(pages, list, served, at, slot) == LiveOn(list[at], PageSlots(pages, list[at]), slot) + LiveFrom(pages, list, served, at + 1, 0)
  {
  }

  /** Dead slots hold no rows. */
  lemma {:induction false} DeadOn(pid: int, slots: Slots, slot: nat, at: nat)
    requires slot <= at && forall s :: slot <= s < at && s < |slots| ==> slots[s] == []
    ensures LiveOn(pid, slots, slot) == LiveOn(pid, slots, at)
    decreases at - slot
  {
    hide LiveOn;
    UnfoldOn(pid, slots, slot);
    UnfoldOn(pid, slots, at);
    if slot < at {
      UnfoldOn(pid, slots, slot + 1);
      DeadOn(pid, slots, slot + 1, at);
    }
  }

  /** An iterator over a table's pages as they are when it comes to them. */
  class TableIterator {
    const tables: Tables
    const t: int
    var pageIdx: nat
    var slot: int
    var rid: RecordID
    var bytes: Record
    var valid: bool

    /** The live rows from a slot of the current page on, as the table is now. */
    ghost function From(slot: nat): seq<Tuple>
      requires tables.Valid()
      reads this`pageIdx, tables`lists, tables`heap, tables.pool
    {
      LiveFrom(tables.Pages(), tables.List(t), tables.Served(), pageIdx, slot)
    }

    /** The rows behind the place the iterator is at. */
    ghost function Behind(): seq<Tuple>
      requires tables.Valid()
      reads this, tables`lists, tables`heap, tables.pool
    {
      if valid then From(if slot < 0 then 0 else slot + 1) else []
    }

    constructor (tables: Tables, t: int)
      requires tables.Valid()
      modifies tables.pool
      ensures this.tables == tables && this.t == t && tables.Valid() && tables.Pages() == old(tables.Pages()) && tables.Served() == old(tables.Served())
      ensures valid <==> old(LiveFrom(tables.Pages(), tables.List(t), tables.Served(), 0, 0)) != []
      ensures valid ==> old(LiveFrom(tables.Pages(), tables.List(t), tables.Served(), 0, 0)) == [Tuple(rid, bytes)] + Behind()
    {
      hide Tables.Valid, Tables.Pages, Tables.Served, Tables.List, LiveFrom;
      this.tables, this.t := tables, t;
      pageIdx, slot, rid, bytes, valid := 0, -1, NO_RID, [], false;
      new;
      AdvanceToLive();
    }

    /** Moves to the next row behind the current one, whatever has been done to the table since
        the iterator came to that one. */
    method Next()
      requires tables.Valid()
      modifies this, tables.pool
      ensures tables.Valid() && tables.Pages() == old(tables.Pages()) && tables.Served() == old(tables.Served())
      ensures valid <==> old(Behind()) != []
      ensures valid ==> old(Behind()) == [Tuple(rid, bytes)] + Behind()
    {
      hide LiveFrom, Tables.Valid, Tables.Pages, Tables.Served, Tables.List;
      if !valid {
        return;
      }
      slot := slot + 1;
      AdvanceToLive();
    }

    method AdvanceToLive()
      requires tables.Valid()
      modifies this, tables.pool
      ensures tables.Valid() && tables.Pages() == old(tables.Pages()) && tables.Served() == old(tables.Served())
      ensures valid <==> old(From(if slot < 0 then 0 else slot)) != []
      ensures valid ==> slot >= 0 && old(From(if slot < 0 then 0 else slot)) == [Tuple(rid, bytes)] + Behind()
    {
      hide LiveFrom, LiveOn, SlotsOf, Tables.Valid, Tables.Pages, Tables.Served, Tables.List;
      ghost var pages, served := tables.Pages(), tables.Served();
      var list := tables.List(t);
      ghost var rows := From(if slot < 0 then 0 else slot);
      tables.Listed(t);
      while pageIdx < |list|
        invariant tables.Valid() && tables.Pages() == pages && tables.Served() == served && tables.List(t) == list
        invariant rows == LiveFrom(pages, list, served, pageIdx, if slot < 0 then 0 else slot)
        decreases |list| - pageIdx
      {
        var from := if slot < 0 then 0 else slot;
        var here, at, rec := tables.FindLive(list[pageIdx], from);
        if here {
          FirstLive(pages, list, served, pageIdx, from, at);
          if rec != [] {
            slot, rid, bytes, valid := at, RecordID(list[pageIdx], at), rec, true;
            return;
          }
        } else {
          UnfoldFrom(pages, list, served, pageIdx, from);
        }
        slot := -1;
        pageIdx := pageIdx + 1;
      }
      UnfoldFrom(pages, list, served, pageIdx, if slot < 0 then 0 else slot);
      valid := false;
    }
  }

  /** The first live slot of a page holds the next row, and without one the next page does. */
  lemma FirstLive(pages: map<int, Slots>, list: seq<int>, served: set<int>, i: nat, slot: nat, at: nat)
    requires i < |list| && list[i] in served && list[i] in pages && slot <= at
    requires forall s :: slot <= s < at && s < |pages[list[i]]| ==> pages[list[i]][s] == []
    ensures at >= |pages[list[i]]| ==> LiveFrom(pages, list, served, i, slot) == LiveFrom(pages, list, served, i + 1, 0)
    ensures at < |pages[list[i]]| && pages[list[i]][at] != [] ==>
        LiveFrom(pages, list, served, i, slot) == [Tuple(RecordID(list[i], at), pages[list[i]][at])] + LiveFrom(pages, list, served, i, at + 1)
  {
    hide LiveFrom, LiveOn;
    UnfoldFrom(pages, list, served, i, slot);
    UnfoldFrom(pages, list, served, i, at + 1);
    DeadOn(list[i], pages[list[i]], slot, at);
    UnfoldOn(list[i], pages[list[i]], at);
  }

  /** Iterating over a table that nobody changes meanwhile. */
  method ScanTable(tables: Tables, t: int) returns (rows: seq<Tuple>)
    requires tables.Valid()
    modifies tables.pool
    ensures tables.Valid() && tables.Pages() == old(tables.Pages())
    ensures rows == old(LiveFrom(tables.Pages(), tables.List(t), tables.Served(), 0, 0))
  {
    hide LiveFrom, LiveOn, Tables.Valid, Tables.Pages, Tables.Served, Tables.List, TableIterator.From;
    ghost var all := LiveFrom(tables.Pages(), tables.List(t), tables.Served(), 0, 0);
    var it := new TableIterator(tables, t);
    rows := [];
    while it.valid
      invariant fresh(it) && it.tables == tables && tables.Valid() && tables.Pages() == old(tables.Pages())
      invariant if it.valid then all == rows + [Tuple(it.rid, it.bytes)] + it.Behind() else all == rows
      decreases if it.valid then |it.Behind()| + 1 else 0
    {
      ghost var ahead := it.Behind();
      rows := rows + [Tuple(it.rid, it.bytes)];
      it.Next();
      assert it.valid ==> all == rows + [Tuple(it.rid, it.bytes)] + it.Behind();
    }
  }

  lemma {:induction false} LiveOnHas(pid: int, slots: Slots, slot: nat, x: Tuple)
    ensures x in LiveOn(pid, slots, slot) <==> x.rid.page == pid && slot <= x.rid.slot < |slots| && slots[x.rid.slot] == x.bytes != []
    decreases |slots| - slot
  {
    if slot < |slots| {
      LiveOnHas(pid, slots, slot + 1, x);
    }
  }

  /** A table's rows: what its pages' places hold. */
  lemma {:induction false} LiveHas(pages: map<int, Slots>, list: seq<int>, served: set<int>, at: nat, x: Tuple)
    ensures x in LiveFrom(pages, list, served, at, 0)
      <==> x.bytes != [] && x.bytes == RowAt(pages, x.rid) && x.rid.page in served && exists i :: at <= i < |list| && list[i] == x.rid.page
    decreases |list| - at
  {
    hide LiveOn, LiveFrom;
    UnfoldFrom(pages, list, served, at, 0);
    if at < |list| {
      LiveHas(pages, list, served, at + 1, x);
      LiveOnHas(list[at], PageSlots(pages, list[at]), 0, x);
      assert (exists i :: at <= i < |list| && list[i] == x.rid.page) <==> list[at] == x.rid.page || exists i :: at + 1 <= i < |list| && list[i] == x.rid.page;
    }
  }

  /** No row is listed twice. */
  lemma {:induction false} LiveOnce(pages: map<int, Slots>, list: seq<int>, served: set<int>, at: nat)
    requires Distinct(list)
    ensures var rows := LiveFrom(pages, list, served, at, 0);
      forall i, j :: 0 <= i < j < |rows| ==> rows[i].rid != rows[j].rid
    decreases |list| - at
  {
    hide LiveOn, LiveFrom;
    UnfoldFrom(pages, list, served, at, 0);
    if at < |list| {
      LiveOnce(pages, list, served, at + 1);
      var here, rest := LiveOn(list[at], PageSlots(pages, list[at]), 0), LiveFrom(pages, list, served, at + 1, 0);
      LiveOnOnce(list[at], PageSlots(pages, list[at]), 0);
      forall i, j | 0 <= i < |here| && 0 <= j < |rest|
        ensures here[i].rid != rest[j].rid
      {
        LiveOnHas(list[at], PageSlots(pages, list[at]), 0, here[i]);
        LiveHas(pages, list, served, at + 1, rest[j]);
        assert here[i] in here && rest[j] in rest;
        var k :| at + 1 <= k < |list| && list[k] == rest[j].rid.page;
        assert list[at] != list[k];
      }
    }
  }

  lemma {:induction false} LiveOnOnce(pid: int, slots: Slots, slot: nat)
    ensures var rows := LiveOn(pid, slots, slot);
      forall i, j :: 0 <= i < j < |rows| ==> rows[i].rid != rows[j].rid
    decreases |slots| - slot
  {
    hide LiveOn;
    UnfoldOn(pid, slots, slot);
    if slot < |slots| {
      LiveOnOnce(pid, slots, slot + 1);
      var rest := LiveOn(pid, slots, slot + 1);
      forall j | 0 <= j < |rest|
        ensures rest[j].rid != RecordID(pid, slot)
      {
        LiveOnHas(pid, slots, slot + 1, rest[j]);
        assert rest[j] in rest;
      }
    }
  }

  ghost predicate AllRows(pages: map<int, Slots>, list: seq<int>, rows: seq<Tuple>) {
    forall rid: RecordID :: RowAt(pages, rid) != [] && rid.page in list ==> Tuple(rid, RowAt(pages, rid)) in rows
  }

  /** A page that cannot be fetched is passed over in silence: an iteration lists all of a table's
      rows exactly when every page that holds one can be fetched. */
  lemma ListsAllIff(pages: map<int, Slots>, list: seq<int>, served: set<int>)
    ensures AllRows(pages, list, LiveFrom(pages, list, served, 0, 0))
      <==> forall rid: RecordID :: RowAt(pages, rid) != [] && rid.page in list ==> rid.page in served
  {
    hide LiveFrom, RowAt;
    var rows := LiveFrom(pages, list, served, 0, 0);
    forall rid: RecordID | RowAt(pages, rid) != [] && rid.page in list
      ensures Tuple(rid, RowAt(pages, rid)) in rows <==> rid.page in served
    {
      LiveHas(pages, list, served, 0, Tuple(rid, RowAt(pages, rid)));
    }
  }
}
