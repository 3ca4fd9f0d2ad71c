/** Room for recovery by sizes alone: pages that can be recovered however often recovery is
    interrupted, and the page that cannot. */
module RecoveryRoom {
  import opened Values
  import opened Bytes
  import opened PageLayout
  import opened SlottedPage
  import opened Recovery
  import opened RecoveryRuns

  // ----- Which records a row ever holds

  /** The row is empty or holds what it held after some part of the log. */
  ghost predicate Known(log: Log, base: Contents, rid: RecordID, v: Record) {
    v == [] || exists n :: 0 <= n <= |log| && Recovery.Value(log, n, base, rid) == v
  }

  /** The row never holds two different records. */
  ghost predicate OneRecord(log: Log, base: Contents, rid: RecordID) {
    forall v, w :: Known(log, base, rid, v) && Known(log, base, rid, w) && v != [] && w != [] ==> v == w
  }

  ghost predicate Touched(log: Log, pid: int) {
    exists i :: 0 <= i < |log| && IsChange(log[i]) && log[i].rid.page == pid
  }

  lemma StepValueKnown(log: Log, base: Contents, t: nat, rid: RecordID)
    requires LogOk(log, base) && t < 2 * |log| && ActsOn(log, t, rid)
    ensures Known(log, base, rid, StepValue(log, t))
  {
    hide LockOrder;
    var i := if t < |log| then t else 2 * |log| - 1 - t;
    assert RecordOk(log, base, i);
    assert t < |log| ==> Recovery.Value(log, i + 1, base, rid) == StepValue(log, t);
    assert t >= |log| ==> Recovery.Value(log, i, base, rid) == StepValue(log, t);
  }

  // ----- Sizes

  function Sum(ns: seq<nat>): nat {
    if ns == [] then 0 else Sum(ns[..|ns| - 1]) + ns[|ns| - 1]
  }

  function LimitOf(l: seq<nat>, slot: int): nat {
    if 0 <= slot < |l| then l[slot] else 0
  }

  /** The page's slots, each with the longest record it ever holds, fit the page; where two
      different records of a slot can meet, one more copy fits as well. */
  ghost predicate PageLimits(log: Log, base: Contents, pid: int, l: seq<nat>) {
    && (forall slot: int, v: Record :: Known(log, base, RecordID(pid, slot), v) ==> |v| <= LimitOf(l, slot))
    && SlotEnd(|l|) + Sum(l) <= PAGE_SIZE
    && forall s :: 0 <= s < |l| ==> OneRecord(log, base, RecordID(pid, s)) || SlotEnd(|l|) + Sum(l) + l[s] <= PAGE_SIZE
  }

  ghost predicate PageKnown(log: Log, base: Contents, p: PageState, pid: int) {
    forall slot: int :: Known(log, base, RecordID(pid, slot), SlotValue(p, slot))
  }

  lemma {:induction false} TotalWithin(slots: seq<Record>, l: seq<nat>)
    requires |slots| <= |l| && forall s :: 0 <= s < |slots| ==> |slots[s]| <= l[s]
    ensures TotalLength(slots) <= Sum(l)
    decreases |l|
  {
    if |slots| < |l| {
      TotalWithin(slots, l[..|l| - 1]);
    } else if slots != [] {
      TotalWithin(slots[..|slots| - 1], l[..|l| - 1]);
    }
  }

  /** A record that its row may hold always has room. */
  lemma RecordFits(log: Log, base: Contents, l: seq<nat>, p: PageState, pid: int, slot: int, rec: Record)
    requires PageLimits(log, base, pid, l) && Sound(p) && |p.slots| <= |l| && PageKnown(log, base, p, pid)
    requires Known(log, base, RecordID(pid, slot), rec) && rec != [] && SlotValue(p, slot) != rec
    ensures 0 <= slot < |l| && HasRoom(p, slot, rec)
  {
    hide Known, TotalLength, Sum, OneRecord, Pad;
    assert 0 <= slot < |l| && |rec| <= l[slot];
    var g, old_ := Grown(p, slot), SlotValue(p, slot);
    PadTotal(p.slots, slot + 1);
    GrownSlots(p, slot);
    TotalUpdate(g.slots, slot, rec);
    GrownWithin(log, base, l, p, pid, slot, rec);
    TotalWithin(g.slots[slot := rec], l);
    assert Known(log, base, RecordID(pid, slot), old_);
    if old_ != [] {
      assert !OneRecord(log, base, RecordID(pid, slot)) by { TwoRecords(log, base, RecordID(pid, slot), rec, old_); }
    }
  }

  lemma TwoRecords(log: Log, base: Contents, rid: RecordID, v: Record, w: Record)
    requires Known(log, base, rid, v) && Known(log, base, rid, w) && v != [] && w != [] && v != w
    ensures !OneRecord(log, base, rid)
  {
    hide Known;
  }

  lemma GrownSlots(p: PageState, slot: nat)
    ensures var g := Grown(p, slot);
      && |g.slots| == (if slot < |p.slots| then |p.slots| else slot + 1) && g.freeEnd == p.freeEnd && g.lsn == p.lsn
      && forall s :: 0 <= s < |g.slots| ==> g.slots[s] == SlotValue(p, s)
  {
  }

  lemma GrownWithin(log: Log, base: Contents, l: seq<nat>, p: PageState, pid: int, slot: nat, rec: Record)
    requires PageLimits(log, base, pid, l) && |p.slots| <= |l| && PageKnown(log, base, p, pid)
    requires slot < |l| && |rec| <= l[slot]
    ensures var slots := Grown(p, slot).slots;
      slot < |slots| <= |l| && forall s :: 0 <= s < |slots| ==> |slots[slot := rec][s]| <= l[s]
  {
    hide Known, Sum, OneRecord, Grown;
    GrownSlots(p, slot);
    var slots := Grown(p, slot).slots;
    forall s | 0 <= s < |slots| ensures |slots[slot := rec][s]| <= l[s] {
      assert Known(log, base, RecordID(pid, s), SlotValue(p, s));
    }
  }

  // ----- The gap for slots still to come

  /** Growing the page's slot array meets no record: it is grown already, or the free gap
      holds the grown array and everything still to be stored. */
  ghost predicate GapFor(p: PageState, l: seq<nat>, work: nat) {
    |p.slots| == |l| || SlotEnd(|l|) + work <= p.freeEnd
  }

  predicate Redoes(log: Log, j: nat, pid: int)
    requires j < |log|
  {
    IsChange(log[j]) && log[j].rid.page == pid && Wins(log, log[j])
  }

  /** Redo finds the record in place: the page holds it, and nothing redone before takes it away. */
  ghost predicate InPlace(log: Log, p: PageState, j: nat)
    requires j < |log|
  {
    && SlotValue(p, log[j].rid.slot) == Effect(log[j])
    && forall m :: 0 <= m < j && On(log[m], log[j].rid) && Wins(log, log[m]) ==> log[m].lsn <= p.lsn
  }

  /** Bytes redo of record j has to store. */
  ghost function RedoBytes(log: Log, pid: int, p: PageState, j: nat): nat
    requires j < |log|
  {
    if Redoes(log, j, pid) && p.lsn < log[j].lsn && !InPlace(log, p, j) then |Effect(log[j])| else 0
  }

  /** Bytes redo has to store on a page, from log index n on. */
  ghost function RedoWork(log: Log, pid: int, p: PageState, n: nat): nat
    requires n <= |log|
    decreases |log| - n
  {
    if n == |log| then 0 else RedoWork(log, pid, p, n + 1) + RedoBytes(log, pid, p, n)
  }

  function UndoBytes(log: Log, r: LogRecord, pid: int): nat {
    if IsChange(r) && r.rid.page == pid && !Wins(log, r) then |Inverse(r)| else 0
  }

  /** Bytes undo may store on a page, of records below index n. */
  function UndoWork(log: Log, pid: int, n: nat): nat
    requires n <= |log|
  {
    if n == 0 then 0
    else UndoWork(log, pid, n - 1) + UndoBytes(log, log[n - 1], pid)
  }

  function UndoRounds(log: Log, pid: int, k: nat): nat {
    if k == 0 then 0 else UndoRounds(log, pid, k - 1) + UndoWork(log, pid, |log|)
  }

  /** A page with room for k recoveries, each but the last interrupted. Redo is paid for once,
      since the page LSN keeps it from being repeated; undo is paid for every time, but only by
      pages whose slot arrays still have to grow. */
  ghost predicate SpaciousPage(log: Log, base: Contents, l: seq<nat>, p: PageState, pid: int, k: nat) {
    && PageLimits(log, base, pid, l) && |p.slots| <= |l| && PageKnown(log, base, p, pid)
    && GapFor(p, l, RedoWork(log, pid, p, 0) + UndoRounds(log, pid, k))
  }

  /** For every page the longest record each of its slots ever holds. */
  type Limits = int -> seq<nat>

  /** Pages the log does not touch need no room. */
  ghost predicate Spacious(log: Log, base: Contents, limits: Limits, disk: Disk, k: nat) {
    forall pid :: Touched(log, pid) ==> SpaciousPage(log, base, limits(pid), Fetch(disk, pid), pid, k)
  }

  // ----- Room is kept from step to step

  ghost predicate Stamped(log: Log, pid: int, p: PageState, t: nat) {
    forall j :: 0 <= j < |log| && j < t && Redoes(log, j, pid) ==> log[j].lsn <= p.lsn
  }

  function RoomNeeded(log: Log, pid: int, redo: nat, t: nat, k: nat): nat
    requires t <= 2 * |log|
  {
    redo + UndoWork(log, pid, if t <= |log| then |log| else 2 * |log| - t) + UndoRounds(log, pid, k)
  }

  /** At step t the page has room for the rest of the recovery and for k more. */
  ghost predicate RoomAt(log: Log, base: Contents, l: seq<nat>, p: PageState, pid: int, t: nat, k: nat)
    requires t <= 2 * |log|
  {
    && PageLimits(log, base, pid, l) && Sound(p) && |p.slots| <= |l| && PageKnown(log, base, p, pid)
    && Stamped(log, pid, p, t)
    && GapFor(p, l, RoomNeeded(log, pid, RedoWork(log, pid, p, 0), t, k))
  }

  /** Redoing a change newer than the page pays for it once and for all. */
  lemma {:induction false} RedoPaid(log: Log, base: Contents, pid: int, p: PageState, q: PageState, t: nat, n: nat)
    requires LogOk(log, base) && t < |log| && n <= |log| && Redoes(log, t, pid) && p.lsn < log[t].lsn == q.lsn
    requires forall s :: s != log[t].rid.slot ==> SlotValue(q, s) == SlotValue(p, s)
    ensures RedoWork(log, pid, p, n) >= RedoWork(log, pid, q, n) + if n <= t then RedoBytes(log, pid, p, t) else 0
    decreases |log| - n
  {
    hide RedoBytes, LogOk;
    if n < |log| {
      RedoPaid(log, base, pid, p, q, t, n + 1);
      BytesPaid(log, base, pid, p, q, t, n);
    }
  }

  lemma BytesPaid(log: Log, base: Contents, pid: int, p: PageState, q: PageState, t: nat, j: nat)
    requires LogOk(log, base) && t < |log| && j < |log| && Redoes(log, t, pid) && p.lsn < log[t].lsn == q.lsn
    requires forall s :: s != log[t].rid.slot ==> SlotValue(q, s) == SlotValue(p, s)
    ensures RedoBytes(log, pid, q, j) <= RedoBytes(log, pid, p, j) && (j == t ==> RedoBytes(log, pid, q, j) == 0)
  {
    hide RecordOk, LockOrder, SlotValue, Effect, Wins;
    assert t < j ==> log[t].lsn < log[j].lsn;
    assert j < t ==> log[j].lsn < log[t].lsn;
    if t < j && Redoes(log, j, pid) && InPlace(log, p, j) {
      assert log[t].rid != log[j].rid;
      assert SlotValue(q, log[j].rid.slot) == SlotValue(p, log[j].rid.slot);
    }
  }

  lemma {:induction false} NothingToRedo(log: Log, pid: int, p: PageState, n: nat)
    requires n <= |log| && Stamped(log, pid, p, |log|)
    ensures RedoWork(log, pid, p, n) == 0
    decreases |log| - n
  {
    hide InPlace;
    if n < |log| {
      NothingToRedo(log, pid, p, n + 1);
    }
  }

  /** What a step leaves: its row changed to a known value at most, the array grown at most to
      its slot, and the gap smaller by what was stored. */
  ghost predicate Changed(p: PageState, q: PageState, slot: int, l: seq<nat>, stored: nat) {
    && (forall s :: s != slot ==> SlotValue(q, s) == SlotValue(p, s))
    && |p.slots| <= |q.slots| <= |l|
    && (|q.slots| == |l| || q.freeEnd >= p.freeEnd - stored)
  }

  lemma ClearChanged(p: PageState, slot: int, lsn: nat, l: seq<nat>)
    requires |p.slots| <= |l|
    ensures Changed(p, AfterClear(p, slot, lsn), slot, l, 0)
    ensures SlotValue(AfterClear(p, slot, lsn), slot) in {SlotValue(p, slot), []}
  {
  }

  /** A store that finds the slot array grown, or a gap for it and for the record. */
  lemma SetChanged(p: PageState, slot: int, rec: Record, lsn: nat, l: seq<nat>)
    requires Sound(p) && |p.slots| <= |l| && 0 <= slot < |l| && 0 < |rec| <= 0xFFFF
    requires !Skips(p, lsn) && !Holds(p, slot, rec) ==> HasRoom(p, slot, rec) && GapFor(p, l, |rec|)
    ensures var q := SetPage(p, slot, rec, lsn);
      && Changed(p, q, slot, l, if !Skips(p, lsn) && !Holds(p, slot, rec) then |rec| else 0)
      && SlotValue(q, slot) in {SlotValue(p, slot), rec}
      && q.lsn == if Skips(p, lsn) || lsn == 0 then p.lsn else lsn
  {
    hide TotalLength, UsableSpace;
    PadTotal(p.slots, slot + 1);
  }

  /** From here on only sizes matter. */
  lemma GapAfter(p: PageState, q: PageState, slot: int, l: seq<nat>, stored: nat, before: nat, after: nat)
    requires GapFor(p, l, before) && Changed(p, q, slot, l, stored) && after + stored <= before
    ensures GapFor(q, l, after)
  {
  }

  lemma KnownAfter(log: Log, base: Contents, p: PageState, q: PageState, pid: int, slot: int)
    requires PageKnown(log, base, p, pid) && forall s :: s != slot ==> SlotValue(q, s) == SlotValue(p, s)
    requires Known(log, base, RecordID(pid, slot), SlotValue(q, slot))
    ensures PageKnown(log, base, q, pid)
  {
    hide Known, SlotValue;
    forall s: int ensures Known(log, base, RecordID(pid, s), SlotValue(q, s)) {
      assert Known(log, base, RecordID(pid, s), SlotValue(p, s));
    }
  }

  lemma Quiet(log: Log, t: nat, pid: int, p: PageState, k: nat, redo: nat)
    requires t < 2 * |log| && !Acts(log, t, pid)
    ensures t < |log| ==> !Redoes(log, t, pid)
    ensures RoomNeeded(log, pid, redo, t + 1, k) <= RoomNeeded(log, pid, redo, t, k)
  {
  }

  /** What recovery still needs shrinks by what a step stores. */
  lemma NeededAfter(log: Log, base: Contents, pid: int, p: PageState, q: PageState, t: nat, k: nat, stored: nat)
    requires LogOk(log, base) && t < 2 * |log| && Acts(log, t, pid) && Stamped(log, pid, p, t) && Stamped(log, pid, q, t + 1)
    requires forall s :: s != StepRecord(log, t).rid.slot ==> SlotValue(q, s) == SlotValue(p, s)
    requires q.lsn == p.lsn ==> (t < |log| ==> stored == 0 && q == p)
    requires q.lsn != p.lsn ==> t < |log| && p.lsn < log[t].lsn == q.lsn
    requires stored == 0 || (stored <= |StepValue(log, t)| && (t < |log| ==> !InPlace(log, p, t)))
    ensures RoomNeeded(log, pid, RedoWork(log, pid, q, 0), t + 1, k) + stored <= RoomNeeded(log, pid, RedoWork(log, pid, p, 0), t, k)
  {
    hide LogOk, RedoWork, InPlace, SlotValue, UndoRounds;
    if t < |log| {
      if q.lsn != p.lsn {
        RedoPaid(log, base, pid, p, q, t, 0);
      }
    } else {
      hide Stamped;
      StampedUp(log, pid, p, t);
      StampedUp(log, pid, q, t + 1);
      NothingToRedo(log, pid, p, 0);
      NothingToRedo(log, pid, q, 0);
    }
  }

  lemma StampedUp(log: Log, pid: int, p: PageState, t: nat)
    requires |log| <= t && Stamped(log, pid, p, t)
    ensures Stamped(log, pid, p, |log|)
  {
  }

  lemma StampedAfter(log: Log, base: Contents, pid: int, p: PageState, q: PageState, t: nat)
    requires LogOk(log, base) && t < 2 * |log| && Stamped(log, pid, p, t) && p.lsn <= q.lsn
    requires t < |log| && Redoes(log, t, pid) ==> log[t].lsn <= q.lsn
    ensures Stamped(log, pid, q, t + 1)
  {
    hide LogOk, Redoes;
  }

  /** A step that empties its row. */
  lemma ClearKeepsRoom(log: Log, base: Contents, l: seq<nat>, p: PageState, pid: int, t: nat, k: nat)
    requires LogOk(log, base) && t < 2 * |log| && RoomAt(log, base, l, p, pid, t, k)
    requires Acts(log, t, pid) && StepValue(log, t) == []
    ensures RoomAt(log, base, l, PageStep(log, t, pid, p), pid, t + 1, k)
  {
    hide LogOk, PageLimits, Sound, Known, GapFor, Changed, RedoWork, Stamped, SlotValue, InPlace, StepValue, RoomNeeded, Effect, Inverse;
    var slot, lsn := StepRecord(log, t).rid.slot, StepLsn(log, t);
    var q := PageStep(log, t, pid, p);
    assert q == AfterClear(p, slot, lsn);
    ClearSound(p, slot, lsn);
    ClearChanged(p, slot, lsn, l);
    ChangedFields(p, q, slot, l, 0);
    StepFields(log, base, t, StepRecord(log, t).rid);
    assert Known(log, base, RecordID(pid, slot), []) by { EmptyKnown(log, base, RecordID(pid, slot)); }
    assert Known(log, base, RecordID(pid, slot), SlotValue(p, slot));
    KnownAfter(log, base, p, q, pid, slot);
    StampedAfter(log, base, pid, p, q, t);
    NeededAfter(log, base, pid, p, q, t, k, 0);
    GapAfter(p, q, slot, l, 0, RoomNeeded(log, pid, RedoWork(log, pid, p, 0), t, k), RoomNeeded(log, pid, RedoWork(log, pid, q, 0), t + 1, k));
  }

  lemma EmptyKnown(log: Log, base: Contents, rid: RecordID)
    ensures Known(log, base, rid, [])
  {
  }

  lemma ChangedFields(p: PageState, q: PageState, slot: int, l: seq<nat>, stored: nat)
    requires Changed(p, q, slot, l, stored)
    ensures (forall s :: s != slot ==> SlotValue(q, s) == SlotValue(p, s)) && |p.slots| <= |q.slots| <= |l|
  {
  }

  /** A step that stores a record, or finds it in place. */
  lemma SetKeepsRoom(log: Log, base: Contents, l: seq<nat>, p: PageState, pid: int, t: nat, k: nat)
    requires LogOk(log, base) && t < 2 * |log| && RoomAt(log, base, l, p, pid, t, k)
    requires Acts(log, t, pid) && StepValue(log, t) != []
    ensures GrowsFreely(log, t, pid, p) && RoomForStep(log, t, pid, p)
    ensures RoomAt(log, base, l, PageStep(log, t, pid, p), pid, t + 1, k)
  {
    hide LogOk, PageLimits, Sound, Known, GapFor, Changed, RedoWork, Stamped, SlotValue, InPlace, StepValue, RoomNeeded, Effect, Inverse, HasRoom, SetPage, CanGrow;
    var rid, rec, lsn := StepRecord(log, t).rid, StepValue(log, t), StepLsn(log, t);
    var slot := rid.slot;
    var q := PageStep(log, t, pid, p);
    StepFields(log, base, t, rid);
    var stored := if !Skips(p, lsn) && !Holds(p, slot, rec) then |rec| else 0;
    StepValueKnown(log, base, t, rid);
    assert q == SetPage(p, slot, rec, lsn);
    InLimits(log, base, l, pid, slot, rec);
    if stored != 0 {
      NotHeld(p, slot, rec);
      RecordFits(log, base, l, p, pid, slot, rec);
      StoreNeeds(log, pid, p, t, k);
      GapForGrow(p, l, slot, RoomNeeded(log, pid, RedoWork(log, pid, p, 0), t, k), |rec|);
    }
    SetSound(p, slot, rec, lsn);
    SetChanged(p, slot, rec, lsn, l);
    ChangedFields(p, q, slot, l, stored);
    assert Known(log, base, RecordID(pid, slot), SlotValue(p, slot));
    KnownAfter(log, base, p, q, pid, slot);
    StampedAfter(log, base, pid, p, q, t);
    if Skips(p, lsn) {
      SkippedStep(log, t, pid, p);
    }
    if stored != 0 && t < |log| {
      NotInPlace(log, p, t);
    }
    NeededAfter(log, base, pid, p, q, t, k, stored);
    GapAfter(p, q, slot, l, stored, RoomNeeded(log, pid, RedoWork(log, pid, p, 0), t, k), RoomNeeded(log, pid, RedoWork(log, pid, q, 0), t + 1, k));
  }

  lemma InLimits(log: Log, base: Contents, l: seq<nat>, pid: int, slot: int, rec: Record)
    requires PageLimits(log, base, pid, l) && Known(log, base, RecordID(pid, slot), rec) && rec != []
    ensures 0 <= slot < |l|
  {
    hide Known, OneRecord, Sum;
    assert |rec| <= LimitOf(l, slot);
  }

  lemma NotHeld(p: PageState, slot: nat, rec: Record)
    requires !Holds(p, slot, rec) && rec != []
    ensures SlotValue(p, slot) != rec
  {
  }

  lemma NotInPlace(log: Log, p: PageState, t: nat)
    requires t < |log| && StepRecord(log, t).rid.slot >= 0 && StepValue(log, t) != [] && !Holds(p, log[t].rid.slot, StepValue(log, t))
    ensures !InPlace(log, p, t)
  {
  }

  /** What a step stores is among what the page still needs. */
  lemma StoreNeeds(log: Log, pid: int, p: PageState, t: nat, k: nat)
    requires t < 2 * |log| && Stores(log, t, pid, p) && (t < |log| ==> log[t].lsn > 0)
    ensures |StepValue(log, t)| <= RoomNeeded(log, pid, RedoWork(log, pid, p, 0), t, k)
  {
    hide RedoWork, InPlace, Holds, Effect, Inverse;
    if t < |log| {
      NotInPlace(log, p, t);
      BytesInWork(log, pid, p, t, 0);
      assert RedoBytes(log, pid, p, t) == |StepValue(log, t)|;
    } else {
      var n := 2 * |log| - t;
      assert UndoWork(log, pid, n) == UndoWork(log, pid, n - 1) + UndoBytes(log, log[n - 1], pid);
      assert UndoBytes(log, log[n - 1], pid) == |StepValue(log, t)|;
    }
  }

  lemma {:induction false} BytesInWork(log: Log, pid: int, p: PageState, j: nat, n: nat)
    requires n <= j < |log|
    ensures RedoBytes(log, pid, p, j) <= RedoWork(log, pid, p, n)
    decreases j - n
  {
    hide RedoBytes;
    if n < j {
      BytesInWork(log, pid, p, j, n + 1);
    }
  }

  lemma GapForGrow(p: PageState, l: seq<nat>, slot: nat, work: nat, stored: nat)
    requires GapFor(p, l, work) && stored <= work && slot < |l| && |p.slots| <= |l|
    ensures GapFor(p, l, stored) && CanGrow(p, slot)
  {
  }

  lemma StepKeepsRoom(log: Log, base: Contents, l: seq<nat>, p: PageState, pid: int, t: nat, k: nat)
    requires LogOk(log, base) && t < 2 * |log| && RoomAt(log, base, l, p, pid, t, k)
    ensures GrowsFreely(log, t, pid, p) && RoomForStep(log, t, pid, p)
    ensures RoomAt(log, base, l, PageStep(log, t, pid, p), pid, t + 1, k)
  {
    if !Acts(log, t, pid) {
      hide LogOk, PageLimits, Sound, PageKnown, RedoWork, RoomNeeded, Acts;
      Quiet(log, t, pid, p, k, RedoWork(log, pid, p, 0));
      StampedAfter(log, base, pid, p, p, t);
      hide Stamped;
    } else if StepValue(log, t) == [] {
      hide RoomAt, LogOk, PageStep;
      ClearKeepsRoom(log, base, l, p, pid, t, k);
    } else {
      hide *;
      SetKeepsRoom(log, base, l, p, pid, t, k);
    }
  }

  lemma {:induction false} RunKeepsRoom(log: Log, base: Contents, l: seq<nat>, p: PageState, pid: int, n: nat, k: nat)
    requires LogOk(log, base) && n <= 2 * |log| && RoomAt(log, base, l, p, pid, 0, k)
    ensures RoomAt(log, base, l, PageAfter(log, pid, p, n), pid, n, k)
    ensures n < 2 * |log| ==> GrowsFreely(log, n, pid, PageAfter(log, pid, p, n)) && RoomForStep(log, n, pid, PageAfter(log, pid, p, n))
  {
    hide LogOk, RoomAt, PageStep, GrowsFreely, RoomForStep;
    if n > 0 {
      RunKeepsRoom(log, base, l, p, pid, n - 1, k);
      StepKeepsRoom(log, base, l, PageAfter(log, pid, p, n - 1), pid, n - 1, k);
    }
    if n < 2 * |log| {
      StepKeepsRoom(log, base, l, PageAfter(log, pid, p, n), pid, n, k);
    }
  }

  lemma RoomAtStart(log: Log, base: Contents, l: seq<nat>, p: PageState, pid: int, k: nat)
    requires SpaciousPage(log, base, l, p, pid, k + 1) && Sound(p)
    ensures RoomAt(log, base, l, p, pid, 0, k)
  {
    hide PageLimits, Sound, PageKnown, RedoWork, UndoWork;
  }

  lemma RoomRestarts(log: Log, base: Contents, l: seq<nat>, p: PageState, pid: int, n: nat, k: nat)
    requires n <= 2 * |log| && RoomAt(log, base, l, p, pid, n, k)
    ensures SpaciousPage(log, base, l, p, pid, k)
  {
    hide PageLimits, Sound, PageKnown, RedoWork, UndoWork;
  }

  lemma UntouchedStep(log: Log, pid: int, t: nat, p: PageState)
    requires !Touched(log, pid) && t < 2 * |log|
    ensures !Acts(log, t, pid) && GrowsFreely(log, t, pid, p) && RoomForStep(log, t, pid, p)
  {
    hide IsChange;
    var i := if t < |log| then t else 2 * |log| - 1 - t;
    assert StepRecord(log, t) == log[i];
  }

  // ----- Spacious disks

  /** By sizes alone: a disk with room for a recovery is one on which no step lacks it. */
  lemma SpaciousIsRoomy(log: Log, base: Contents, limits: Limits, d: Disk, k: nat)
    requires LogOk(log, base) && SoundDisk(d) && Spacious(log, base, limits, d, k + 1)
    ensures Roomy(log, d)
  {
    hide LogOk, SpaciousPage, Sound, Touched, GrowsFreely, RoomForStep, PageAfter, RoomAt, Fetch;
    forall pid, t: nat | t < 2 * |log|
      ensures GrowsFreely(log, t, pid, PageAfter(log, pid, Fetch(d, pid), t)) && RoomForStep(log, t, pid, PageAfter(log, pid, Fetch(d, pid), t))
    {
      if Touched(log, pid) {
        assert Sound(Fetch(d, pid)) && SpaciousPage(log, base, limits(pid), Fetch(d, pid), pid, k + 1);
        RoomAtStart(log, base, limits(pid), Fetch(d, pid), pid, k);
        RunKeepsRoom(log, base, limits(pid), Fetch(d, pid), pid, t, k);
      } else {
        UntouchedStep(log, pid, t, PageAfter(log, pid, Fetch(d, pid), t));
      }
    }
    hide DecidedBy;
    assert forall rid: RecordID, t: nat :: DecidedBy(log, t, rid) ==> t < 2 * |log| by { DecidedInRange(log); }
  }

  lemma DecidedInRange(log: Log)
    ensures forall rid: RecordID, t: nat :: DecidedBy(log, t, rid) ==> t < 2 * |log|
  {
  }

  /** An interrupted recovery leaves room for one recovery less. */
  lemma SpaciousStays(log: Log, base: Contents, limits: Limits, d: Disk, e: Disk, k: nat)
    requires LogOk(log, base) && SoundDisk(d) && Spacious(log, base, limits, d, k + 1) && Interrupted(log, d, e)
    ensures Spacious(log, base, limits, e, k) && SoundDisk(e)
  {
    hide LogOk, SpaciousPage, Sound, Touched, PageAfter, RoomAt, Fetch, Growable;
    SpaciousIsRoomy(log, base, limits, d, k);
    forall pid ensures Sound(Fetch(e, pid)) && (Touched(log, pid) ==> SpaciousPage(log, base, limits(pid), Fetch(e, pid), pid, k)) {
      var p := Fetch(d, pid);
      var n :| 0 <= n <= 2 * |log| && Fetch(e, pid) == PageAfter(log, pid, p, n);
      assert Sound(p) && Growable(log, pid, p);
      RunSound(log, pid, p, n);
      if Touched(log, pid) {
        RoomAtStart(log, base, limits(pid), p, pid, k);
        RunKeepsRoom(log, base, limits(pid), p, pid, n, k);
        RoomRestarts(log, base, limits(pid), PageAfter(log, pid, p, n), pid, n, k);
      }
    }
  }

  /** Room on the crash disk for as many recoveries as are started is room enough for all. */
  lemma {:induction false} ChainSpacious(log: Log, base: Contents, limits: Limits, disks: seq<Disk>, i: nat)
    requires LogOk(log, base) && i < |disks| && CrashChain(log, disks)
    requires SoundDisk(disks[0]) && Spacious(log, base, limits, disks[0], |disks|)
    ensures SoundDisk(disks[i]) && Spacious(log, base, limits, disks[i], |disks| - i) && Roomy(log, disks[i])
  {
    hide LogOk, SoundDisk, Spacious, Roomy, Interrupted;
    if i > 0 {
      ChainSpacious(log, base, limits, disks, i - 1);
      assert Interrupted(log, disks[i - 1], disks[i - 1 + 1]);
      SpaciousStays(log, base, limits, disks[i - 1], disks[i], |disks| - i);
    }
    SpaciousIsRoomy(log, base, limits, disks[i], |disks| - i - 1);
  }

  /** The state of the committed transactions, after a crash that leaves room for every recovery
      that is started. */
  method RecoverSpacious(log: Log, disks: seq<Disk>, lists: map<int, seq<int>>, ghost base: Contents, ghost limits: Limits) returns (tables: TableManager)
    requires LogOk(log, base) && disks != [] && CrashChain(log, disks) && CrashDisk(log, base, disks[0])
    requires SoundDisk(disks[0]) && Spacious(log, base, limits, disks[0], |disks|)
    ensures forall rid :: Stored(tables.disk, rid) == Target(log, base, rid)
  {
    hide LogOk, SoundDisk, Spacious, Roomy, CrashChain, CrashDisk, Stored, Target;
    forall j | 0 <= j < |disks| ensures Roomy(log, disks[j]) {
      ChainSpacious(log, base, limits, disks, j);
    }
    tables := RecoverAtLast(log, disks, lists, base);
  }

  // ----- Pages that insertions have filled

  /** No byte of the record area is wasted, as on a page that has only seen insertions. */
  predicate Tight(p: PageState) {
    SlotEnd(|p.slots|) <= p.freeEnd <= PAGE_SIZE && p.freeEnd == PAGE_SIZE - TotalLength(p.slots)
  }

  lemma TightInsert(p: PageState, rec: Record)
    requires Tight(p) && |rec| + SLOT_SIZE <= UsableSpace(p)
    ensures PadFits(p, |p.slots|) && Tight(WithRecord(p, |p.slots|, rec)) && WithRecord(p, |p.slots|, rec).slots == p.slots + [rec]
  {
    hide TotalLength;
    PadTotal(p.slots, |p.slots| + 1);
    TotalUpdate(Grown(p, |p.slots|).slots, |p.slots|, rec);
  }

  /** A page that rows were inserted into until one no longer fitted. */
  method FillPage(rows: seq<Record>) returns (page: Page, n: nat)
    ensures fresh(page) && fresh(page.bytes) && page.Valid() && Tight(page.State())
    ensures n <= |rows| && page.State().slots == rows[..n]
    ensures n < |rows| ==> rows[n] == [] || UsableSpace(page.State()) < |rows[n]| + SLOT_SIZE
  {
    hide Tight, UsableSpace;
    page := new Page();
    EmptyTight();
    n := 0;
    while n < |rows|
      invariant fresh(page) && fresh(page.bytes) && page.Valid() && Tight(page.State()) && n <= |rows| && page.State().slots == rows[..n]
    {
      ghost var p := page.State();
      if rows[n] != [] {
        if UsableSpace(p) >= |rows[n]| + SLOT_SIZE {
          TightInsert(p, rows[n]);
        }
      }
      var ok, slot := page.Insert(rows[n]);
      if !ok {
        return;
      }
      n := n + 1;
    }
  }

  lemma EmptyTight()
    ensures Tight(EMPTY_PAGE)
  {
  }

  ghost predicate InsertOnly(log: Log, pid: int) {
    forall i :: 0 <= i < |log| && IsChange(log[i]) && log[i].rid.page == pid ==> log[i].kind.Insert?
  }

  /** Rows come and never go. */
  lemma {:induction false} ComesOnce(log: Log, base: Contents, rid: RecordID, n: nat)
    requires LogOk(log, base) && InsertOnly(log, rid.page) && n <= |log|
    ensures Recovery.Value(log, n, base, rid) in {[], Recovery.Value(log, |log|, base, rid)}
    decreases |log| - n
  {
    hide LockOrder;
    if n < |log| {
      ComesOnce(log, base, rid, n + 1);
      assert RecordOk(log, base, n);
    }
  }

  /** And each is inserted once. */
  lemma {:induction false} StaysFrom(log: Log, base: Contents, rid: RecordID, i: nat, n: nat)
    requires LogOk(log, base) && InsertOnly(log, rid.page) && i < n <= |log| && On(log[i], rid)
    ensures Recovery.Value(log, n, base, rid) == Effect(log[i]) != []
    ensures forall j :: i < j < n ==> !On(log[j], rid)
    decreases n
  {
    hide LockOrder;
    assert RecordOk(log, base, i) && RecordOk(log, base, n - 1);
    if i < n - 1 {
      StaysFrom(log, base, rid, i, n - 1);
    }
  }

  function Lengths(slots: seq<Record>): (l: seq<nat>)
    ensures |l| == |slots| && forall s :: 0 <= s < |l| ==> l[s] == |slots[s]|
  {
    seq(|slots|, s requires 0 <= s < |slots| => |slots[s]|)
  }

  lemma {:induction false} SumLengths(slots: seq<Record>)
    ensures Sum(Lengths(slots)) == TotalLength(slots)
  {
    if slots != [] {
      SumLengths(slots[..|slots| - 1]);
      assert Lengths(slots)[..|slots| - 1] == Lengths(slots[..|slots| - 1]);
    }
  }

  /** The page holds these rows once every insertion of the log is made. */
  ghost predicate FillsTo(log: Log, base: Contents, pid: int, full: seq<Record>) {
    && SlotEnd(|full|) + TotalLength(full) <= PAGE_SIZE
    && forall slot: int :: Recovery.Value(log, |log|, base, RecordID(pid, slot)) == if 0 <= slot < |full| then full[slot] else []
  }

  lemma InsertLimits(log: Log, base: Contents, pid: int, full: seq<Record>)
    requires LogOk(log, base) && InsertOnly(log, pid) && FillsTo(log, base, pid, full)
    ensures PageLimits(log, base, pid, Lengths(full))
  {
    hide LogOk, TotalLength, Sum, Recovery.Value;
    SumLengths(full);
    forall slot: int, v: Record | Known(log, base, RecordID(pid, slot), v)
      ensures |v| <= LimitOf(Lengths(full), slot) && (v == [] || v == Recovery.Value(log, |log|, base, RecordID(pid, slot)))
    {
      if v != [] {
        var n :| 0 <= n <= |log| && Recovery.Value(log, n, base, RecordID(pid, slot)) == v;
        ComesOnce(log, base, RecordID(pid, slot), n);
      }
    }
  }

  /** The rows that insertions from log index n on put into slots the page does not have yet. */
  ghost function StillToCome(log: Log, pid: int, full: seq<Record>, from: nat, n: nat): (g: seq<Record>)
    ensures |g| == |full|
  {
    seq(|full|, s requires 0 <= s < |full| => if s >= from && ComesFrom(log, RecordID(pid, s), n) then full[s] else [])
  }

  ghost predicate ComesFrom(log: Log, rid: RecordID, n: nat) {
    exists j :: n <= j < |log| && On(log[j], rid)
  }

  /** A record in a slot the page has is in place already. */
  lemma InsertInPlace(log: Log, base: Contents, pid: int, full: seq<Record>, p: PageState, j: nat)
    requires LogOk(log, base) && InsertOnly(log, pid) && FillsTo(log, base, pid, full) && j < |log| && IsChange(log[j]) && log[j].rid.page == pid
    requires |p.slots| <= |full| && forall s :: 0 <= s < |p.slots| ==> p.slots[s] == full[s]
    ensures 0 <= log[j].rid.slot < |full| && full[log[j].rid.slot] == Effect(log[j])
    ensures log[j].rid.slot < |p.slots| ==> InPlace(log, p, j)
  {
    hide LogOk, TotalLength, Effect, Wins, Recovery.Value;
    var rid := log[j].rid;
    RecordFields(log, base, j);
    StaysFrom(log, base, rid, j, |log|);
    assert rid == RecordID(pid, rid.slot);
    forall m | 0 <= m < j ensures !On(log[m], rid) {
      if On(log[m], rid) {
        StaysFrom(log, base, rid, m, j + 1);
      }
    }
  }

  lemma {:induction false} InsertWork(log: Log, base: Contents, pid: int, full: seq<Record>, p: PageState, n: nat)
    requires LogOk(log, base) && InsertOnly(log, pid) && FillsTo(log, base, pid, full) && n <= |log|
    requires |p.slots| <= |full| && forall s :: 0 <= s < |p.slots| ==> p.slots[s] == full[s]
    ensures RedoWork(log, pid, p, n) <= TotalLength(StillToCome(log, pid, full, |p.slots|, n))
    decreases |log| - n
  {
    hide LogOk, TotalLength, InPlace, Effect, Wins, FillsTo, InsertOnly, IsChange;
    if n < |log| {
      InsertWork(log, base, pid, full, p, n + 1);
      var g, g' := StillToCome(log, pid, full, |p.slots|, n), StillToCome(log, pid, full, |p.slots|, n + 1);
      if IsChange(log[n]) && log[n].rid.page == pid {
        InsertInPlace(log, base, pid, full, p, n);
        NotAgain(log, base, pid, n);
        var s := log[n].rid.slot;
        assert ComesFrom(log, log[n].rid, n) && !ComesFrom(log, log[n].rid, n + 1);
        assert log[n].rid == RecordID(pid, s);
        OthersCome(log, pid, n);
        if s >= |p.slots| {
          assert g == g'[s := full[s]];
          TotalUpdate(g', s, full[s]);
        } else {
          assert g == g';
        }
      } else {
        OthersCome(log, pid, n);
        assert g == g';
      }
    }
  }

  lemma NotAgain(log: Log, base: Contents, pid: int, n: nat)
    requires LogOk(log, base) && InsertOnly(log, pid) && n < |log| && IsChange(log[n]) && log[n].rid.page == pid
    ensures forall j :: n < j < |log| ==> !On(log[j], log[n].rid)
  {
    hide LogOk, Recovery.Value, Effect;
    StaysFrom(log, base, log[n].rid, n, |log|);
  }

  lemma OthersCome(log: Log, pid: int, n: nat)
    requires n < |log|
    ensures forall s: int :: !(IsChange(log[n]) && log[n].rid == RecordID(pid, s)) ==> (ComesFrom(log, RecordID(pid, s), n) <==> ComesFrom(log, RecordID(pid, s), n + 1))
  {
  }

  lemma {:induction false} TwoTotals(a: seq<Record>, b: seq<Record>, c: seq<Record>)
    requires |a| == |b| == |c| && forall s :: 0 <= s < |c| ==> |a[s]| + |b[s]| <= |c[s]|
    ensures TotalLength(a) + TotalLength(b) <= TotalLength(c)
  {
    if c != [] {
      var n := |c| - 1;
      TwoTotals(a[..n], b[..n], c[..n]);
    }
  }

  lemma {:induction false} InsertUndoes(log: Log, base: Contents, pid: int, n: nat)
    requires LogOk(log, base) && InsertOnly(log, pid) && n <= |log|
    ensures UndoWork(log, pid, n) == 0
  {
    hide LogOk, Wins;
    if n > 0 {
      InsertUndoes(log, base, pid, n - 1);
    }
  }

  lemma {:induction false} NoRounds(log: Log, pid: int, k: nat)
    requires UndoWork(log, pid, |log|) == 0
    ensures UndoRounds(log, pid, k) == 0
  {
    if k > 0 {
      NoRounds(log, pid, k - 1);
    }
  }

  /** A page that insertions fill to the last byte has room for any number of recoveries,
      however many of its rows had reached the disk: what is missing still fits. */
  lemma FilledIsSpacious(log: Log, base: Contents, pid: int, full: seq<Record>, p: PageState, m: nat, k: nat)
    requires LogOk(log, base) && InsertOnly(log, pid) && FillsTo(log, base, pid, full)
    requires m <= |log| && HoldsPrefix(log, base, p, pid, m)
    requires Tight(p) && |p.slots| <= |full| && forall s :: 0 <= s < |p.slots| ==> p.slots[s] == full[s]
    ensures SpaciousPage(log, base, Lengths(full), p, pid, k)
  {
    hide LogOk, TotalLength, RedoWork, InsertOnly, Recovery.Value, PageLimits, Pad;
    InsertLimits(log, base, pid, full);
    InsertUndoes(log, base, pid, |log|);
    NoRounds(log, pid, k);
    forall slot: int ensures Known(log, base, RecordID(pid, slot), SlotValue(p, slot)) {
      assert SlotValue(p, slot) == Recovery.Value(log, m, base, RecordID(pid, slot));
    }
    InsertWork(log, base, pid, full, p, 0);
    PadTotal(p.slots, |full|);
    PadFields(p.slots, |full|);
    TwoTotals(StillToCome(log, pid, full, |p.slots|, 0), Pad(p.slots, |full|), full);
  }

  lemma PadFields(slots: seq<Record>, n: nat)
    requires |slots| <= n
    ensures |Pad(slots, n)| == n && forall s :: 0 <= s < n ==> Pad(slots, n)[s] == if s < |slots| then slots[s] else []
  {
  }

  // ----- A page without room

  function Filled(n: nat, b: Byte): (r: Record)
    ensures |r| == n && forall i :: 0 <= i < n ==> r[i] == b
  {
    seq(n, _ => b)
  }

  /** One transaction deletes a row and has not committed; another one has taken its space. */
  function CrowdedLog(): Log {
    [LogRecord(1, 1, Delete, 0, RecordID(0, 0), Filled(2000, 1), []),
     LogRecord(2, 2, Insert, 0, RecordID(0, 2), [], Filled(1500, 3)),
     LogRecord(3, 2, Commit, 0, RecordID(0, 0), [], [])]
  }

  function CrowdedBase(rid: RecordID): Record {
    if rid == RecordID(0, 0) then Filled(2000, 1) else if rid == RecordID(0, 1) then Filled(1900, 2) else []
  }

  function CrowdedPage(): PageState {
    PageState(0, [[], Filled(1900, 2), Filled(1500, 3)], PAGE_SIZE - 3400)
  }

  lemma CrowdedLogOk()
    ensures LogOk(CrowdedLog(), CrowdedBase)
  {
    hide Filled, Power256;
    var log := CrowdedLog();
    SmallLsn(1);
    SmallLsn(2);
    SmallLsn(3);
    assert Recovery.Value(log, 0, CrowdedBase, RecordID(0, 0)) == CrowdedBase(RecordID(0, 0));
    assert Recovery.Value(log, 0, CrowdedBase, RecordID(0, 2)) == [];
    assert Recovery.Value(log, 1, CrowdedBase, RecordID(0, 2)) == [];
    assert RecordOk(log, CrowdedBase, 0) && RecordOk(log, CrowdedBase, 1) && RecordOk(log, CrowdedBase, 2);
    assert LockOrder(log, 0, 1) && LockOrder(log, 0, 2) && LockOrder(log, 1, 2);
  }

  lemma CrowdedCrash()
    ensures CrashDisk(CrowdedLog(), CrowdedBase, map[0 := CrowdedPage()]) && SoundDisk(map[0 := CrowdedPage()])
  {
    hide Filled;
    var log, d := CrowdedLog(), map[0 := CrowdedPage()];
    CrowdedTotal();
    forall pid ensures PageAsOf(log, CrowdedBase, Fetch(d, pid), pid) {
      if pid == 0 {
        forall slot ensures SlotValue(CrowdedPage(), slot) == Recovery.Value(log, 3, CrowdedBase, RecordID(0, slot)) {
          CrowdedValue(slot);
        }
        assert HoldsPrefix(log, CrowdedBase, Fetch(d, pid), pid, 3);
      } else {
        assert HoldsPrefix(log, CrowdedBase, Fetch(d, pid), pid, 0);
      }
    }
  }

  lemma CrowdedTotal()
    ensures TotalLength(CrowdedPage().slots) == 3400
  {
    hide Filled;
    var slots: seq<Record> := CrowdedPage().slots;
    assert slots[..2][..1] == slots[..1] && slots[..1][..0] == [];
    assert TotalLength(slots[..1]) == 0;
    assert TotalLength(slots[..2]) == TotalLength(slots[..2][..1]) + |slots[..2][1]|;
  }

  lemma CrowdedValue(slot: int)
    ensures Recovery.Value(CrowdedLog(), 3, CrowdedBase, RecordID(0, slot)) == SlotValue(CrowdedPage(), slot)
  {
    hide Filled;
    var log, rid := CrowdedLog(), RecordID(0, slot);
    assert Recovery.Value(log, 3, CrowdedBase, rid) == Recovery.Value(log, 2, CrowdedBase, rid);
    assert Recovery.Value(log, 2, CrowdedBase, rid) == if slot == 2 then Filled(1500, 3) else Recovery.Value(log, 1, CrowdedBase, rid);
    assert Recovery.Value(log, 1, CrowdedBase, rid) == if slot == 0 then [] else CrowdedBase(rid);
  }

  /** The pages of that disk through the six steps of recovery: one is stamped, once. */
  lemma CrowdedRun(t: nat)
    requires t <= 5
    ensures PageAfter(CrowdedLog(), 0, CrowdedPage(), t) == CrowdedPage().(lsn := if t <= 1 then 0 else 2)
  {
    hide Filled;
    var log := CrowdedLog();
    assert log[2].kind.Commit? && Wins(log, log[1]) && !Wins(log, log[0]);
    if t > 0 {
      CrowdedRun(t - 1);
      var p := PageAfter(log, 0, CrowdedPage(), t - 1);
      if t == 2 {
        CrowdedTotal();
        assert Acts(log, 1, 0) && StepValue(log, 1) == Filled(1500, 3) && Holds(p, 2, Filled(1500, 3));
        assert PageStep(log, 1, 0, p) == Stamp(p, 2);
      } else {
        assert !Acts(log, t - 1, 0);
      }
    }
  }

  lemma CrowdedGrows(pid: int, p: PageState)
    requires pid == 0 ==> p == CrowdedPage()
    ensures Growable(CrowdedLog(), pid, p)
  {
    hide Filled;
    var log := CrowdedLog();
    assert log[2].kind.Commit? && Wins(log, log[1]) && !Wins(log, log[0]);
    forall t | 0 <= t < 6 ensures GrowsFreely(log, t, pid, PageAfter(log, pid, p, t)) {
      if pid == 0 && (t == 1 || t == 5) {
        CrowdedRun(t);
      }
    }
  }

  /** Without room a row is lost: the page took the second row's insertion because the first
      row's deletion had made room, and cannot hold both once the deletion is undone. */
  lemma CrowdedPageLosesRow()
    ensures LogOk(CrowdedLog(), CrowdedBase)
    ensures var d := map[0 := CrowdedPage()];
      CrashDisk(CrowdedLog(), CrowdedBase, d) && SoundDisk(d) && GrowableDisk(CrowdedLog(), d)
    ensures !RowFits(CrowdedLog(), CrowdedPage(), RecordID(0, 0))
    ensures SlotValue(PageAfter(CrowdedLog(), 0, CrowdedPage(), 6), 0) != Target(CrowdedLog(), CrowdedBase, RecordID(0, 0))
  {
    hide Filled, LogOk, Growable, PageAfter, CrashDisk, SoundDisk, Target;
    var log, p, rid := CrowdedLog(), CrowdedPage(), RecordID(0, 0);
    CrowdedLogOk();
    CrowdedCrash();
    forall pid ensures Growable(log, pid, Fetch(map[0 := p], pid)) {
      CrowdedGrows(pid, Fetch(map[0 := p], pid));
    }
    CrowdedDecides();
    CrowdedRun(5);
    NoRoom();
    CrashIsRecoverable(log, CrowdedBase, map[0 := p]);
    assert RowOk(log, CrowdedBase, Fetch(map[0 := p], 0), rid) && Growable(log, 0, Fetch(map[0 := p], 0));
    CrowdedSound();
    RecoversIff(log, CrowdedBase, p, rid);
  }

  lemma CrowdedSound()
    ensures Sound(CrowdedPage())
  {
    hide Filled;
    CrowdedTotal();
  }

  lemma CrowdedDecides()
    ensures DecidedBy(CrowdedLog(), 5, RecordID(0, 0))
  {
    hide Filled;
    var log := CrowdedLog();
    assert log[2].kind.Commit? && !Wins(log, log[0]);
  }

  lemma NoRoom()
    ensures !RoomForStep(CrowdedLog(), 5, 0, CrowdedPage().(lsn := 2))
  {
    hide Filled;
    CrowdedDecides();
    CrowdedTotal();
    var p := CrowdedPage().(lsn := 2);
    assert Grown(p, 0).slots == p.slots;
    assert StepValue(CrowdedLog(), 5) == Filled(2000, 1);
  }
}
