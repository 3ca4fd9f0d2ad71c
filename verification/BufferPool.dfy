/** The buffer pool: page frames with pin counts, an LRU list of the unpinned ones, and
    write-back on eviction, as a faithful cache of a flat array of pages. */
module BufferPool {
  import opened Bytes
  import opened PageLayout

  type Content = seq<Byte>

  /** A page nobody has written reads as zeros. */
  function BlankPage(): Content {
    Zeros(PAGE_SIZE)
  }

  /** An empty slotted page. */
  function InitialPage(): Content {
    WriteAt(WriteAt(Zeros(PAGE_SIZE), 0, PutU16(0)), 2, PutU16(PAGE_SIZE))
  }

  datatype Frame = Frame(content: Content, pageId: int, pinCount: nat, dirty: bool, valid: bool)

  type Frames = seq<Frame>
  type Disk = map<int, Content>
  type Table = map<int, int>

  /** What happens on the way to the disk. */
  datatype Event = HookCalled | Written(pageId: int)

  function DiskPage(disk: Disk, id: int): Content {
    if id in disk then disk[id] else BlankPage()
  }

  ghost predicate NoRepeats(s: seq<int>) {
    forall i, j :: 0 <= i < j < |s| ==> s[i] != s[j]
  }

  // ----- The invariant, part by part

  /** The page table and the valid frames name each other: no page is in two frames. */
  ghost predicate TableOk(frames: Frames, table: Table) {
    && (forall id :: id in table ==> 0 <= table[id] < |frames| && frames[table[id]].valid && frames[table[id]].pageId == id)
    && (forall f :: 0 <= f < |frames| && frames[f].valid ==> frames[f].pageId in table && table[frames[f].pageId] == f)
  }

  predicate Idle(frame: Frame) {
    frame.valid && frame.pinCount == 0
  }

  /** The LRU list holds exactly the valid unpinned frames, least recently unpinned first. */
  ghost predicate LruOk(frames: Frames, lru: seq<int>, unpinned: map<int, nat>, clock: nat) {
    && NoRepeats(lru)
    && (forall i :: 0 <= i < |lru| ==> 0 <= lru[i] < |frames|)
    && (forall f :: 0 <= f < |frames| ==> (f in lru <==> Idle(frames[f])))
    && (forall i :: 0 <= i < |lru| ==> lru[i] in unpinned && unpinned[lru[i]] < clock)
    && (forall i, j :: 0 <= i < j < |lru| ==> unpinned[lru[i]] < unpinned[lru[j]])
  }

  /** The free list holds the invalid frames, except for one in transit (or none: -1). */
  ghost predicate FreeOk(frames: Frames, freeList: seq<int>, spare: int) {
    && NoRepeats(freeList)
    && (forall i :: 0 <= i < |freeList| ==> 0 <= freeList[i] < |frames|)
    && (forall f :: 0 <= f < |frames| ==> (f in freeList <==> !frames[f].valid && f != spare))
  }

  /** A frame neither dirty nor with a change yet to be reported equals the disk's page. */
  ghost predicate CleanOk(frames: Frames, disk: Disk, touched: set<int>) {
    forall f :: 0 <= f < |frames| ==> CleanFrame(frames[f], disk, frames[f].pageId in touched)
  }

  /** Pages with a change yet to be reported are pinned. */
  ghost predicate TouchedOk(frames: Frames, table: Table, touched: set<int>) {
    forall id :: id in touched ==> PinsIn(frames, table, id) > 0
  }

  predicate CleanFrame(frame: Frame, disk: Disk, touched: bool) {
    frame.valid && !frame.dirty && !touched ==> frame.content == DiskPage(disk, frame.pageId)
  }

  /** The newest content of a page: what its frame holds, or else the disk. */
  function LatestIn(frames: Frames, table: Table, disk: Disk, id: int): Content {
    if id in table && 0 <= table[id] < |frames| then frames[table[id]].content else DiskPage(disk, id)
  }

  predicate PinnedIn(frames: Frames, table: Table, id: int) {
    id in table && 0 <= table[id] < |frames| && frames[table[id]].pinCount > 0
  }

  ghost predicate SameLatest(frames: Frames, table: Table, disk: Disk, frames': Frames, table': Table, disk': Disk) {
    forall id: int :: LatestIn(frames', table', disk', id) == LatestIn(frames, table, disk, id)
  }

  /** How often a page is pinned. */
  function PinsIn(frames: Frames, table: Table, id: int): nat {
    if id in table && 0 <= table[id] < |frames| then frames[table[id]].pinCount else 0
  }

  ghost predicate SamePins(frames: Frames, table: Table, frames': Frames, table': Table) {
    forall id: int :: PinsIn(frames', table', id) == PinsIn(frames, table, id)
  }

  // ----- Steps on the parts

  lemma FreeTaken(frames: Frames, freeList: seq<int>)
    requires FreeOk(frames, freeList, -1) && freeList != []
    ensures var f := freeList[|freeList| - 1];
      0 <= f < |frames| && !frames[f].valid && FreeOk(frames, freeList[..|freeList| - 1], f)
  {
    var f, rest := freeList[|freeList| - 1], freeList[..|freeList| - 1];
    assert freeList == rest + [f];
    assert f in freeList;
    forall g | 0 <= g < |frames| ensures g in rest <==> !frames[g].valid && g != f {
      assert g in freeList <==> g in rest || g == f;
      if g in rest {
        var i :| 0 <= i < |rest| && rest[i] == g;
        assert freeList[i] == g;
      }
    }
  }

  function Emptied(frame: Frame): Frame {
    frame.(valid := false, dirty := false, pinCount := 0)
  }

  function Skip(i: int, at: int): int {
    if i < at then i else i + 1
  }

  lemma Removed(s: seq<int>, at: nat)
    requires NoRepeats(s) && at < |s|
    ensures var rest := s[..at] + s[at + 1..];
      && (forall i :: 0 <= i < |rest| ==> rest[i] == s[Skip(i, at)])
      && (forall x :: x in rest <==> x in s && x != s[at])
  {
    var rest := s[..at] + s[at + 1..];
    forall x ensures x in rest <==> x in s && x != s[at] {
      assert x in rest <==> x in s[..at] || x in s[at + 1..];
      if x in s && x != s[at] {
        var i :| 0 <= i < |s| && s[i] == x;
        assert i < at ==> s[..at][i] == x;
        assert i > at ==> s[at + 1..][i - at - 1] == x;
      }
    }
  }

  /** The frame leaves the list: by being taken from it, pinned, or emptied. */
  lemma LruWithout(frames: Frames, lru: seq<int>, unpinned: map<int, nat>, clock: nat, at: nat, frame: Frame)
    requires LruOk(frames, lru, unpinned, clock) && at < |lru| && !Idle(frame)
    ensures LruOk(frames[lru[at] := frame], lru[..at] + lru[at + 1..], unpinned, clock)
  {
    hide Idle;
    Removed(lru, at);
    var rest := lru[..at] + lru[at + 1..];
    forall i, j | 0 <= i < j < |rest| ensures rest[i] != rest[j] && unpinned[rest[i]] < unpinned[rest[j]] {
      assert rest[i] == lru[Skip(i, at)] && rest[j] == lru[Skip(j, at)];
    }
  }

  /** A frame outside the list changes but stays pinned or invalid. */
  lemma LruSame(frames: Frames, lru: seq<int>, unpinned: map<int, nat>, clock: nat, f: int, frame: Frame)
    requires LruOk(frames, lru, unpinned, clock) && 0 <= f < |frames| && Idle(frames[f]) == Idle(frame)
    ensures LruOk(frames[f := frame], lru, unpinned, clock)
  {
  }

  /** A frame is unpinned for good: it goes to the end of the list. */
  lemma LruAppend(frames: Frames, lru: seq<int>, unpinned: map<int, nat>, clock: nat, f: int, frame: Frame)
    requires LruOk(frames, lru, unpinned, clock) && 0 <= f < |frames| && !Idle(frames[f]) && Idle(frame)
    ensures LruOk(frames[f := frame], lru + [f], unpinned[f := clock], clock + 1)
  {
    assert f !in lru;
    assert forall i :: 0 <= i < |lru| ==> lru[i] != f;
  }

  lemma TableWithout(frames: Frames, table: Table, f: int)
    requires TableOk(frames, table) && 0 <= f < |frames| && frames[f].valid
    ensures TableOk(frames[f := Emptied(frames[f])], table - {frames[f].pageId})
  {
  }

  /** A page enters the table in an unused frame. */
  lemma TableWith(frames: Frames, table: Table, f: int, frame: Frame)
    requires TableOk(frames, table) && 0 <= f < |frames| && !frames[f].valid && frame.valid && frame.pageId !in table
    ensures TableOk(frames[f := frame], table[frame.pageId := f])
  {
  }

  lemma TableSame(frames: Frames, table: Table, f: int, frame: Frame)
    requires TableOk(frames, table) && 0 <= f < |frames| && frames[f].valid && frame.valid && frame.pageId == frames[f].pageId
    ensures TableOk(frames[f := frame], table)
  {
  }

  lemma FreeSame(frames: Frames, freeList: seq<int>, spare: int, f: int, frame: Frame)
    requires FreeOk(frames, freeList, spare) && 0 <= f < |frames| && (frame.valid == frames[f].valid || f == spare)
    ensures FreeOk(frames[f := frame], freeList, if f == spare && frame.valid then -1 else spare)
  {
  }

  lemma FreeEmptied(frames: Frames, freeList: seq<int>, f: int)
    requires FreeOk(frames, freeList, -1) && 0 <= f < |frames| && frames[f].valid
    ensures FreeOk(frames[f := Emptied(frames[f])], freeList, f)
  {
  }

  lemma CleanSet(frames: Frames, disk: Disk, touched: set<int>, f: int, frame: Frame)
    requires CleanOk(frames, disk, touched) && 0 <= f < |frames|
    requires CleanFrame(frame, disk, frame.pageId in touched)
    ensures CleanOk(frames[f := frame], disk, touched)
  {
    hide DiskPage;
  }

  /** Writing one frame's page leaves the other frames as clean as they were. */
  lemma CleanWritten(frames: Frames, table: Table, disk: Disk, touched: set<int>, f: int)
    requires CleanOk(frames, disk, touched) && TableOk(frames, table) && 0 <= f < |frames| && frames[f].valid
    ensures CleanOk(frames, disk[frames[f].pageId := frames[f].content], touched)
  {
    forall g | 0 <= g < |frames| ensures CleanFrame(frames[g], disk[frames[f].pageId := frames[f].content], frames[g].pageId in touched) {
      assert CleanFrame(frames[g], disk, frames[g].pageId in touched);
    }
  }

  class Pool {
    var disk: Disk
    var numPages: nat
    var frames: Frames
    var table: Table
    var lru: seq<int>
    var freeList: seq<int>
    ghost var events: seq<Event>
    ghost var touched: set<int>
    ghost var unpinned: map<int, nat>
    ghost var clock: nat

    constructor (numFrames: nat, disk: Disk, numPages: nat)
      ensures Valid() && this.disk == disk && this.numPages == numPages && table == map[] && events == [] && touched == {}
      ensures |frames| == if numFrames == 0 then 1 else numFrames
    {
      hide BlankPage;
      var n := if numFrames == 0 then 1 else numFrames;
      this.disk, this.numPages := disk, numPages;
      frames, table, lru := seq(n, i => Frame(BlankPage(), -1, 0, false, false)), map[], [];
      freeList := seq(n, i requires 0 <= i < n => n - 1 - i);
      events, touched, unpinned, clock := [], {}, map[], 0;
      new;
      AllFree(frames, freeList);
    }

    ghost predicate Valid()
      reads this
    {
      && TableOk(frames, table)
      && LruOk(frames, lru, unpinned, clock)
      && FreeOk(frames, freeList, -1)
      && CleanOk(frames, disk, touched)
      && TouchedOk(frames, table, touched)
    }

    ghost function Latest(id: int): Content
      reads this
    {
      LatestIn(frames, table, disk, id)
    }

    ghost predicate Pinned(id: int)
      reads this
    {
      PinnedIn(frames, table, id)
    }

    /** No page's newest content has changed. */
    twostate predicate SamePages()
      reads this
    {
      forall id: int :: Latest(id) == old(Latest(id))
    }

    ghost function Pins(id: int): nat
      reads this
    {
      PinsIn(frames, table, id)
    }

    /** No pinned page has moved to another frame or left the pool. */
    twostate predicate PinsKept()
      reads this
    {
      forall id: int :: old(Pinned(id)) ==> id in table && table[id] == old(table[id])
    }

    /** Pages are pinned as often as before, except for one. */
    twostate predicate PinsSameBut(id: int)
      reads this
    {
      forall other: int :: other != id ==> Pins(other) == old(Pins(other))
    }

    /** Frame f is out of the free list but not yet in use. */
    ghost predicate Spare(f: int)
      reads this
    {
      && TableOk(frames, table) && LruOk(frames, lru, unpinned, clock) && FreeOk(frames, freeList, f)
      && CleanOk(frames, disk, touched) && TouchedOk(frames, table, touched) && 0 <= f < |frames| && !frames[f].valid
    }

    /** Finds a frame for a page: a free one, or the least recently unpinned one. None (-1)
        when every frame is pinned. */
    method AcquireFrame() returns (f: int)
      requires Valid()
      modifies this
      ensures |frames| == |old(frames)| && numPages == old(numPages) && touched == old(touched)
      ensures f == -1 <==> old(freeList) == [] && old(lru) == []
      ensures f == -1 ==> Valid() && frames == old(frames) && table == old(table) && disk == old(disk) && freeList == old(freeList) && lru == old(lru)
      ensures f != -1 ==> Spare(f) && f == if old(freeList) != [] then old(freeList)[|old(freeList)| - 1] else old(lru)[0]
      ensures SamePages() && PinsKept() && forall id: int :: Pins(id) == old(Pins(id))
      ensures forall id :: id in table ==> id in old(table) && table[id] == old(table[id])
      ensures forall g :: 0 <= g < |frames| && g != f ==> frames[g] == old(frames)[g]
      ensures events == old(events) + Evicted(old(frames), old(freeList), old(lru))
    {
      hide TableOk, LruOk, FreeOk, CleanOk, TouchedOk, BlankPage;
      if freeList != [] {
        f := freeList[|freeList| - 1];
        FreeTaken(frames, freeList);
        freeList := freeList[..|freeList| - 1];
        return;
      }
      if lru == [] {
        return -1;
      }
      f := Evict();
    }

    /** Takes the least recently unpinned frame, written back after the hook if it is dirty. */
    method Evict() returns (f: int)
      requires Valid() && lru != []
      modifies this
      ensures |frames| == |old(frames)| && numPages == old(numPages) && touched == old(touched)
      ensures f == old(lru)[0] && Spare(f) && SamePages() && PinsKept() && forall id: int :: Pins(id) == old(Pins(id))
      ensures forall id :: id in table ==> id in old(table) && table[id] == old(table[id])
      ensures forall g :: 0 <= g < |frames| && g != f ==> frames[g] == old(frames)[g]
      ensures events == old(events) + if old(frames)[f].dirty then [HookCalled, Written(old(frames)[f].pageId)] else []
    {
      hide TableOk, LruOk, FreeOk, CleanOk, TouchedOk, BlankPage, CleanFrame;
      f := lru[0];
      LruHead(frames, lru, unpinned, clock);
      var frame := frames[f];
      UntouchedIdle(frames, table, touched, f);
      EvictParts(frames, table, disk, lru, freeList, touched, unpinned, clock);
      EvictSame(frames, table, disk, touched, f);
      TouchedKept(frames, table, frames[f := Emptied(frame)], table - {frame.pageId}, touched);
      lru := lru[1..];
      if frame.dirty {
        events := events + [HookCalled, Written(frame.pageId)];
        disk := disk[frame.pageId := frame.content];
      }
      table := table - {frame.pageId};
      frames := frames[f := Emptied(frame)];
    }

    /** Takes a frame off the LRU list and pins it. */
    method Repin(f: int)
      requires Valid() && 0 <= f < |frames| && Idle(frames[f])
      modifies this`lru, this`frames
      ensures Valid() && frames == old(frames)[f := old(frames)[f].(pinCount := 1)]
    {
      hide TableOk, LruOk, FreeOk, CleanOk, TouchedOk, BlankPage, CleanFrame;
      InLru(frames, lru, unpinned, clock, f);
      var at := 0;
      while lru[at] != f
        invariant 0 <= at < |lru| && f in lru[at..]
        decreases |lru| - at
        modifies {}
      {
        Later(lru, at, f);
        at := at + 1;
      }
      var frame := frames[f].(pinCount := 1);
      LruWithout(frames, lru, unpinned, clock, at, frame);
      TableSame(frames, table, f, frame);
      TouchedSame(frames, table, touched, f, frame);
      FreeSame(frames, freeList, -1, f, frame);
      PinnedClean(frames, disk, touched, f, frame);
      lru := lru[..at] + lru[at + 1..];
      frames := frames[f := frame];
    }

    /** Changes one frame that stays pinned. */
    method SetPinned(f: int, frame: Frame, ghost nowTouched: set<int>)
      requires Valid() && 0 <= f < |frames| && frames[f].valid && frames[f].pinCount > 0
      requires frame.valid && frame.pageId == frames[f].pageId && frame.pinCount > 0
      requires nowTouched - {frame.pageId} == touched - {frame.pageId} && CleanFrame(frame, disk, frame.pageId in nowTouched)
      modifies this`frames, this`touched
      ensures Valid() && frames == old(frames)[f := frame] && touched == nowTouched
    {
      hide TableOk, LruOk, FreeOk, CleanOk, TouchedOk, BlankPage, CleanFrame;
      LruSame(frames, lru, unpinned, clock, f, frame);
      TableSame(frames, table, f, frame);
      FreeSame(frames, freeList, -1, f, frame);
      CleanTouch(frames, table, disk, touched, nowTouched, f, frame);
      TouchedTouch(frames, table, touched, nowTouched, f, frame);
      frames := frames[f := frame];
      touched := nowTouched;
    }

    /** Pins a page, read from the disk if it is not in the pool; none (-1) when no frame can
        be had. The caller sees the page's newest content. */
    method FetchPage(id: int) returns (f: int)
      requires Valid()
      modifies this
      ensures Valid() && |frames| == |old(frames)| && numPages == old(numPages) && touched == old(touched) && SamePages() && PinsKept()
      ensures f == -1 <==> id !in old(table) && old(freeList) == [] && old(lru) == []
      ensures f != -1 ==> Pinned(id) && table[id] == f && frames[f].content == old(Latest(id))
      ensures PinsSameBut(id) && Pins(id) == old(Pins(id)) + if f == -1 then 0 else 1
      ensures forall other :: other in table ==> other in old(table) || other == id
      ensures old(Pinned(id)) || f == -1 ==> freeList == old(freeList) && lru == old(lru) && table == old(table)
      ensures id in old(table) ==> events == old(events)
      ensures id !in old(table) ==> events == old(events) + Evicted(old(frames), old(freeList), old(lru))
    {
      hide TableOk, LruOk, FreeOk, CleanOk, TouchedOk, BlankPage, CleanFrame;
      if id in table {
        f := table[id];
        InTable(frames, table, id);
        if frames[f].pinCount == 0 {
          Repin(f);
        } else {
          PinnedIsClean(frames, disk, touched, f);
          SetPinned(f, frames[f].(pinCount := frames[f].pinCount + 1), touched);
        }
        return;
      }
      f := AcquireFrame();
      if f == -1 {
        return;
      }
      DiskIsClean(disk, id);
      Install(f, Frame(DiskPage(disk, id), id, 1, false, true));
    }

    /** A page enters the pool in a spare frame. */
    method Install(f: int, frame: Frame)
      requires Spare(f) && frame.valid && frame.pinCount > 0 && frame.pageId !in table
      requires CleanFrame(frame, disk, false)
      modifies this`frames, this`table
      ensures Valid() && frames == old(frames)[f := frame] && table == old(table)[frame.pageId := f]
      ensures Latest(frame.pageId) == frame.content && Pinned(frame.pageId)
      ensures forall id: int :: id != frame.pageId ==> Latest(id) == old(Latest(id))
      ensures PinsKept() && PinsSameBut(frame.pageId) && Pins(frame.pageId) == frame.pinCount
    {
      hide LruOk, FreeOk, CleanOk, TouchedOk, BlankPage, CleanFrame;
      LruSame(frames, lru, unpinned, clock, f, frame);
      TableWith(frames, table, f, frame);
      FreeSame(frames, freeList, f, f, frame);
      UnbufferedUntouched(frames, table, touched, frame.pageId);
      CleanSet(frames, disk, touched, f, frame);
      TouchedInstall(frames, table, touched, f, frame);
      frames := frames[f := frame];
      table := table[frame.pageId := f];
    }

    /** Allocates a page on the disk and pins an empty one for it. When no frame can be had
        the allocated page is not used. The disk's next page must not be in the pool already. */
    method NewPage() returns (id: int, f: int)
      requires Valid() && numPages !in table
      modifies this
      ensures Valid() && |frames| == |old(frames)| && touched == old(touched) && PinsKept()
      ensures id == old(numPages) && numPages == old(numPages) + 1
      ensures f == -1 <==> old(freeList) == [] && old(lru) == []
      ensures f != -1 ==> Pinned(id) && table[id] == f && Latest(id) == InitialPage()
      ensures f == -1 ==> Latest(id) == BlankPage() && freeList == [] && lru == []
      ensures forall other: int :: other != id ==> Latest(other) == old(Latest(other))
      ensures PinsSameBut(id) && Pins(id) == if f == -1 then 0 else 1
      ensures forall other :: other in table ==> other in old(table) || other == id
      ensures events == old(events) + Evicted(old(frames), old(freeList), old(lru))
    {
      hide TableOk, LruOk, FreeOk, CleanOk, TouchedOk, BlankPage, InitialPage, CleanFrame;
      id := numPages;
      numPages := numPages + 1;
      CleanUnbuffered(frames, table, disk, touched, id, BlankPage());
      disk := disk[id := BlankPage()];
      f := AcquireFrame();
      if f == -1 {
        return;
      }
      DirtyIsClean(InitialPage(), id, disk);
      Install(f, Frame(InitialPage(), id, 1, true, true));
    }

    /** The holder of a pin changes the page in place. */
    method Modify(id: int, content: Content)
      requires Valid() && Pinned(id)
      modifies this`frames, this`touched
      ensures Valid() && Latest(id) == content && PinsKept() && PinsSameBut(id) && Pins(id) == old(Pins(id))
      ensures forall other: int :: other != id ==> Latest(other) == old(Latest(other))
      ensures frames == old(frames)[table[id] := old(frames)[table[id]].(content := content)]
      ensures touched == old(touched) + {id}
    {
      hide LruOk, FreeOk, CleanOk, TouchedOk, BlankPage;
      var f := table[id];
      SetPinned(f, frames[f].(content := content), touched + {id});
    }

    /** Gives a pin back. The last holder of a page that was changed and not yet reported
        reports the change. */
    method Unpin(id: int, dirty: bool) returns (ok: bool)
      requires Valid() && (id in table ==> Pinned(id))
      requires id in table && frames[table[id]].pinCount == 1 && id in touched ==> dirty
      modifies this
      ensures Valid() && ok == (id in old(table)) && numPages == old(numPages) && SamePages() && table == old(table) && disk == old(disk) && events == old(events)
      ensures !ok ==> frames == old(frames) && touched == old(touched) && lru == old(lru)
      ensures PinsSameBut(id) && Pins(id) == old(Pins(id)) - if ok then 1 else 0
      ensures ok ==> frames == old(frames)[table[id] := Released(old(frames)[table[id]], dirty)]
      ensures ok ==> touched == old(touched) - if dirty then {id} else {}
      ensures ok ==> lru == old(lru) + if old(frames)[table[id]].pinCount == 1 then [table[id]] else []
      ensures freeList == old(freeList)
    {
      hide LruOk, FreeOk, CleanOk, TouchedOk, BlankPage, CleanFrame;
      if id !in table {
        return false;
      }
      var f := table[id];
      var frame := Released(frames[f], dirty);
      ReleasedClean(frames, disk, touched, f, dirty);
      ghost var nowTouched := touched - if dirty then {id} else {};
      if frame.pinCount == 0 {
        LruAppend(frames, lru, unpinned, clock, f, frame);
        TableSame(frames, table, f, frame);
        FreeSame(frames, freeList, -1, f, frame);
        CleanUntouch(frames, table, disk, touched, f, frame);
        TouchedUntouch(frames, table, touched, f, frame);
        frames := frames[f := frame];
        lru := lru + [f];
        unpinned := unpinned[f := clock];
        clock := clock + 1;
        touched := nowTouched;
      } else {
        SetPinned(f, frame, nowTouched);
      }
      ok := true;
    }

    /** Writes a buffered page to the disk. */
    method Flush(id: int) returns (ok: bool)
      requires Valid()
      modifies this`disk, this`frames, this`events
      ensures Valid() && |frames| == |old(frames)| && ok == (id in table) && SamePages() && PinsKept() && PinsSameBut(id) && Pins(id) == old(Pins(id))
      ensures ok ==> DiskPage(disk, id) == Latest(id)
    {
      hide LruOk, FreeOk, CleanOk, TouchedOk, BlankPage;
      if id !in table {
        return false;
      }
      WriteFrame(table[id]);
      ok := true;
    }

    method WriteFrame(f: int)
      requires Valid() && 0 <= f < |frames| && frames[f].valid
      modifies this`disk, this`frames, this`events
      ensures Valid() && SamePages() && |frames| == |old(frames)| && forall id: int :: Pins(id) == old(Pins(id))
      ensures disk == old(disk)[frames[f].pageId := frames[f].content] && frames == old(frames)[f := old(frames)[f].(dirty := false)]
      ensures events == old(events) + [Written(frames[f].pageId)]
    {
      hide LruOk, FreeOk, CleanOk, TouchedOk, BlankPage;
      var frame := frames[f].(dirty := false);
      CleanWritten(frames, table, disk, touched, f);
      ghost var disk' := disk[frame.pageId := frame.content];
      TouchedSame(frames, table, touched, f, frame);
      CleanSet(frames, disk', touched, f, frame);
      LruSame(frames, lru, unpinned, clock, f, frame);
      TableSame(frames, table, f, frame);
      FreeSame(frames, freeList, -1, f, frame);
      disk := disk[frame.pageId := frame.content];
      events := events + [Written(frame.pageId)];
      frames := frames[f := frame];
    }

    /** Writes every dirty page: afterwards the disk holds the newest content of every page
        without an unreported change. */
    method FlushAll()
      requires Valid()
      modifies this`disk, this`frames, this`events
      ensures Valid() && |frames| == |old(frames)| && SamePages() && PinsKept() && forall id: int :: Pins(id) == old(Pins(id))
      ensures forall id: int :: (id in table && id in touched) || DiskPage(disk, id) == Latest(id)
    {
      hide TableOk, LruOk, FreeOk, CleanOk, TouchedOk, BlankPage, LatestIn;
      var f := 0;
      while f < |frames|
        invariant 0 <= f <= |frames| == |old(frames)| && Valid() && SamePages() && forall id: int :: Pins(id) == old(Pins(id))
        invariant forall g :: 0 <= g < f ==> !(frames[g].valid && frames[g].dirty)
      {
        if frames[f].valid && frames[f].dirty {
          WriteFrame(f);
        }
        f := f + 1;
      }
      AllWritten(frames, table, disk, touched);
    }
  }

  /** A frame after one pin is given back. */
  function Released(frame: Frame, dirty: bool): Frame
    requires frame.pinCount > 0
  {
    frame.(dirty := frame.dirty || dirty, pinCount := frame.pinCount - 1)
  }

  lemma InLru(frames: Frames, lru: seq<int>, unpinned: map<int, nat>, clock: nat, f: int)
    requires LruOk(frames, lru, unpinned, clock) && 0 <= f < |frames| && Idle(frames[f])
    ensures f in lru && lru[0..] == lru
  {
  }

  lemma Later(s: seq<int>, at: nat, f: int)
    requires at < |s| && f in s[at..] && s[at] != f
    ensures at + 1 < |s| && f in s[at + 1..]
  {
    var i :| 0 <= i < |s[at..]| && s[at..][i] == f;
    assert s[at + i] == f && i > 0;
    assert s[at + 1..][i - 1] == f;
  }

  lemma PinnedClean(frames: Frames, disk: Disk, touched: set<int>, f: int, frame: Frame)
    requires CleanOk(frames, disk, touched) && 0 <= f < |frames| && frames[f].valid && frame == frames[f].(pinCount := 1)
    ensures CleanOk(frames[f := frame], disk, touched)
  {
    hide DiskPage;
    assert CleanFrame(frames[f], disk, frames[f].pageId in touched);
  }

  lemma PinnedIsClean(frames: Frames, disk: Disk, touched: set<int>, f: int)
    requires CleanOk(frames, disk, touched) && 0 <= f < |frames|
    ensures CleanFrame(frames[f].(pinCount := frames[f].pinCount + 1), disk, frames[f].pageId in touched)
  {
    assert CleanFrame(frames[f], disk, frames[f].pageId in touched);
  }

  /** Other frames hold other pages, so a page's change of status does not concern them. */
  lemma CleanTouch(frames: Frames, table: Table, disk: Disk, touched: set<int>, nowTouched: set<int>, f: int, frame: Frame)
    requires TableOk(frames, table) && CleanOk(frames, disk, touched) && 0 <= f < |frames|
    requires frames[f].valid && frame.valid && frame.pageId == frames[f].pageId
    requires nowTouched - {frame.pageId} == touched - {frame.pageId} && CleanFrame(frame, disk, frame.pageId in nowTouched)
    ensures CleanOk(frames[f := frame], disk, nowTouched)
  {
    hide DiskPage;
    forall g | 0 <= g < |frames| && g != f ensures CleanFrame(frames[g], disk, frames[g].pageId in nowTouched) {
      assert CleanFrame(frames[g], disk, frames[g].pageId in touched);
      OtherStatus(touched, nowTouched, frame.pageId, frames[g].pageId);
    }
  }

  lemma OtherStatus(touched: set<int>, nowTouched: set<int>, id: int, other: int)
    requires nowTouched - {id} == touched - {id}
    ensures other != id ==> (other in nowTouched <==> other in touched)
  {
    assert other in nowTouched - {id} <==> other in touched - {id};
  }

  lemma CleanUntouch(frames: Frames, table: Table, disk: Disk, touched: set<int>, f: int, frame: Frame)
    requires TableOk(frames, table) && CleanOk(frames, disk, touched) && 0 <= f < |frames|
    requires frames[f].valid && frame.valid && frame.pageId == frames[f].pageId && CleanFrame(frame, disk, false)
    ensures CleanOk(frames[f := frame], disk, touched - {frame.pageId})
  {
    hide CleanFrame;
    assert (touched - {frame.pageId}) - {frame.pageId} == touched - {frame.pageId};
    CleanTouch(frames, table, disk, touched, touched - {frame.pageId}, f, frame);
  }

  // ----- Pages with unreported changes stay pinned

  lemma TouchedKept(frames: Frames, table: Table, frames': Frames, table': Table, touched: set<int>)
    requires TouchedOk(frames, table, touched) && SamePins(frames, table, frames', table')
    ensures TouchedOk(frames', table', touched)
  {
  }

  lemma TouchedSame(frames: Frames, table: Table, touched: set<int>, f: int, frame: Frame)
    requires TouchedOk(frames, table, touched) && 0 <= f < |frames| && (frame.pinCount > 0 || frame.pinCount == frames[f].pinCount)
    ensures TouchedOk(frames[f := frame], table, touched)
  {
  }

  lemma TouchedTouch(frames: Frames, table: Table, touched: set<int>, nowTouched: set<int>, f: int, frame: Frame)
    requires TableOk(frames, table) && TouchedOk(frames, table, touched) && 0 <= f < |frames| && frames[f].valid
    requires frame.pinCount > 0 && frame.pageId == frames[f].pageId && nowTouched - {frame.pageId} == touched - {frame.pageId}
    ensures TouchedOk(frames[f := frame], table, nowTouched)
  {
    forall id | id in nowTouched ensures PinsIn(frames[f := frame], table, id) > 0 {
      OtherStatus(touched, nowTouched, frame.pageId, id);
    }
  }

  lemma TouchedInstall(frames: Frames, table: Table, touched: set<int>, f: int, frame: Frame)
    requires TableOk(frames, table) && TouchedOk(frames, table, touched) && 0 <= f < |frames| && !frames[f].valid && frame.pageId !in table
    ensures TouchedOk(frames[f := frame], table[frame.pageId := f], touched)
  {
  }

  lemma TouchedUntouch(frames: Frames, table: Table, touched: set<int>, f: int, frame: Frame)
    requires TableOk(frames, table) && TouchedOk(frames, table, touched) && 0 <= f < |frames| && frames[f].valid && frame.pageId == frames[f].pageId
    ensures TouchedOk(frames[f := frame], table, touched - {frame.pageId})
  {
  }

  lemma UnbufferedUntouched(frames: Frames, table: Table, touched: set<int>, id: int)
    requires TouchedOk(frames, table, touched) && id !in table
    ensures id !in touched
  {
  }

  lemma ReleasedClean(frames: Frames, disk: Disk, touched: set<int>, f: int, dirty: bool)
    requires CleanOk(frames, disk, touched) && 0 <= f < |frames| && frames[f].valid && frames[f].pinCount > 0
    requires frames[f].pinCount == 1 && frames[f].pageId in touched ==> dirty
    ensures CleanFrame(Released(frames[f], dirty), disk, frames[f].pageId in touched && !dirty)
    ensures frames[f].pinCount == 1 ==> touched - (if dirty then {frames[f].pageId} else {}) == touched - {frames[f].pageId}
  {
    assert CleanFrame(frames[f], disk, frames[f].pageId in touched);
  }

  lemma InTable(frames: Frames, table: Table, id: int)
    requires TableOk(frames, table) && id in table
    ensures 0 <= table[id] < |frames| && frames[table[id]].valid && frames[table[id]].pageId == id
    ensures forall other :: other in table && other != id ==> table[other] != table[id]
  {
  }

  lemma CleanUnbuffered(frames: Frames, table: Table, disk: Disk, touched: set<int>, id: int, content: Content)
    requires CleanOk(frames, disk, touched) && TableOk(frames, table) && id !in table
    ensures CleanOk(frames, disk[id := content], touched)
  {
    forall g | 0 <= g < |frames| ensures CleanFrame(frames[g], disk[id := content], frames[g].pageId in touched) {
      assert CleanFrame(frames[g], disk, frames[g].pageId in touched);
    }
  }

  lemma DiskIsClean(disk: Disk, id: int)
    ensures CleanFrame(Frame(DiskPage(disk, id), id, 1, false, true), disk, false)
  {
  }

  lemma DirtyIsClean(content: Content, id: int, disk: Disk)
    ensures CleanFrame(Frame(content, id, 1, true, true), disk, false)
  {
  }

  lemma AllWritten(frames: Frames, table: Table, disk: Disk, touched: set<int>)
    requires TableOk(frames, table) && CleanOk(frames, disk, touched)
    requires forall g :: 0 <= g < |frames| ==> !(frames[g].valid && frames[g].dirty)
    ensures forall id: int :: (id in table && id in touched) || DiskPage(disk, id) == LatestIn(frames, table, disk, id)
  {
    hide BlankPage;
    forall id: int | id in table && id !in touched ensures DiskPage(disk, id) == LatestIn(frames, table, disk, id) {
      assert CleanFrame(frames[table[id]], disk, id in touched);
    }
  }

  /** The disk after a victim was written back, if it had to be. */
  function WrittenBack(disk: Disk, frame: Frame): Disk {
    if frame.dirty then disk[frame.pageId := frame.content] else disk
  }

  lemma LruHead(frames: Frames, lru: seq<int>, unpinned: map<int, nat>, clock: nat)
    requires LruOk(frames, lru, unpinned, clock) && lru != []
    ensures 0 <= lru[0] < |frames| && Idle(frames[lru[0]])
  {
    assert lru[0] in lru;
  }

  lemma EvictParts(frames: Frames, table: Table, disk: Disk, lru: seq<int>, freeList: seq<int>, touched: set<int>, unpinned: map<int, nat>, clock: nat)
    requires TableOk(frames, table) && LruOk(frames, lru, unpinned, clock) && FreeOk(frames, freeList, -1) && CleanOk(frames, disk, touched)
    requires lru != [] && 0 <= lru[0] < |frames| && Idle(frames[lru[0]]) && frames[lru[0]].pageId !in touched
    ensures var f := lru[0]; var out := frames[f := Emptied(frames[f])];
      && TableOk(out, table - {frames[f].pageId}) && LruOk(out, lru[1..], unpinned, clock) && FreeOk(out, freeList, f)
      && CleanOk(out, WrittenBack(disk, frames[f]), touched)
  {
    hide TableOk, LruOk, FreeOk, CleanOk, TouchedOk, DiskPage;
    var f := lru[0];
    TableWithout(frames, table, f);
    LruWithout(frames, lru, unpinned, clock, 0, Emptied(frames[f]));
    assert lru[..0] + lru[0 + 1..] == lru[1..];
    FreeEmptied(frames, freeList, f);
    CleanWritten(frames, table, disk, touched, f);
    CleanSet(frames, WrittenBack(disk, frames[f]), touched, f, Emptied(frames[f]));
  }

  lemma UntouchedIdle(frames: Frames, table: Table, touched: set<int>, f: int)
    requires TableOk(frames, table) && TouchedOk(frames, table, touched) && 0 <= f < |frames| && Idle(frames[f])
    ensures frames[f].pageId !in touched
  {
  }

  /** Evicting a frame changes no page's newest content and touches no pinned page. */
  lemma EvictSame(frames: Frames, table: Table, disk: Disk, touched: set<int>, f: int)
    requires TableOk(frames, table) && CleanOk(frames, disk, touched) && 0 <= f < |frames| && Idle(frames[f]) && frames[f].pageId !in touched
    ensures SameLatest(frames, table, disk, frames[f := Emptied(frames[f])], table - {frames[f].pageId}, WrittenBack(disk, frames[f]))
    ensures !PinnedIn(frames, table, frames[f].pageId)
    ensures SamePins(frames, table, frames[f := Emptied(frames[f])], table - {frames[f].pageId})
  {
    hide BlankPage;
    assert CleanFrame(frames[f], disk, frames[f].pageId in touched);
  }

  lemma AllFree(frames: Frames, freeList: seq<int>)
    requires |freeList| == |frames| && forall i :: 0 <= i < |freeList| ==> freeList[i] == |frames| - 1 - i
    requires forall f :: 0 <= f < |frames| ==> !frames[f].valid
    ensures FreeOk(frames, freeList, -1)
  {
    forall f | 0 <= f < |frames| ensures f in freeList {
      assert freeList[|frames| - 1 - f] == f;
    }
  }

  /** The events of taking a frame: nothing, or the hook and then the write. */
  ghost function Evicted(frames: Frames, freeList: seq<int>, lru: seq<int>): seq<Event> {
    if freeList == [] && lru != [] && 0 <= lru[0] < |frames| && frames[lru[0]].dirty
    then [HookCalled, Written(frames[lru[0]].pageId)]
    else []
  }
}
