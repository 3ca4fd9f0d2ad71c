/** Crash recovery: redo of committed changes in log order, guarded by page LSNs, then undo of
    uncommitted ones in reverse. Each page goes through its steps on its own, so recovery is
    described page by page. */
module Recovery {
  import opened Values
  import opened Bytes
  import opened PageLayout
  import opened SlottedPage

  datatype LogType = Begin | Insert | Delete | Update | Commit | Abort

  datatype LogRecord = LogRecord(lsn: nat, txnId: int, kind: LogType, tableId: int, rid: RecordID,
                                 before: Record, after: Record)

  type Log = seq<LogRecord>
  type Disk = map<int, PageState>
  type Contents = RecordID -> Record

  // ----- What a log means

  predicate IsChange(r: LogRecord) {
    r.kind.Insert? || r.kind.Delete?
  }

  predicate On(r: LogRecord, rid: RecordID) {
    IsChange(r) && r.rid == rid
  }

  /** What the row holds after the change, and what it held before. */
  function Effect(r: LogRecord): Record {
    if r.kind.Insert? then r.after else []
  }

  function Inverse(r: LogRecord): Record {
    if r.kind.Insert? then [] else r.before
  }

  function Committed(log: Log): set<int> {
    set i | 0 <= i < |log| && log[i].kind.Commit? :: log[i].txnId
  }

  predicate Wins(log: Log, r: LogRecord) {
    r.txnId in Committed(log)
  }

  /** A row's contents after the first n log records. */
  function Value(log: Log, n: nat, base: Contents, rid: RecordID): Record
    requires n <= |log|
  {
    if n == 0 then base(rid)
    else if On(log[n - 1], rid) then Effect(log[n - 1])
    else Value(log, n - 1, base, rid)
  }

  /** The same counting the changes of committed transactions only. */
  function CommittedValue(log: Log, n: nat, base: Contents, rid: RecordID): Record
    requires n <= |log|
  {
    if n == 0 then base(rid)
    else if On(log[n - 1], rid) && Wins(log, log[n - 1]) then Effect(log[n - 1])
    else CommittedValue(log, n - 1, base, rid)
  }

  /** The state recovery has to produce. */
  function Target(log: Log, base: Contents, rid: RecordID): Record {
    CommittedValue(log, |log|, base, rid)
  }

  ghost predicate RecordOk(log: Log, base: Contents, i: nat)
    requires i < |log|
  {
    var r := log[i];
    && 0 < r.lsn < Power256(8) && !r.kind.Abort?
    && (IsChange(r) ==>
          && 0 <= r.rid.slot && SlotEnd(r.rid.slot + 1) <= PAGE_SIZE
          && |Effect(r)| <= 0xFFFF && |Inverse(r)| <= 0xFFFF
          && (r.kind.Insert? ==> r.after != []) && (r.kind.Delete? ==> r.before != [])
          && Inverse(r) == Value(log, i, base, r.rid))
  }

  /** A row changed by one transaction changes hands only after that transaction committed. */
  ghost predicate LockOrder(log: Log, i: nat, j: nat)
    requires i < j < |log|
  {
    IsChange(log[i]) && On(log[j], log[i].rid) && log[i].txnId != log[j].txnId ==>
      exists k :: i < k < j && log[k].kind.Commit? && log[k].txnId == log[i].txnId
  }

  /** Logs that strict two-phase locking writes when no transaction has been rolled back:
      increasing LSNs, correct before-images, rows handed over at commit. */
  ghost predicate LogOk(log: Log, base: Contents) {
    && (forall i :: 0 <= i < |log| ==> RecordOk(log, base, i))
    && (forall i, j :: 0 <= i < j < |log| ==> log[i].lsn < log[j].lsn)
    && (forall i, j :: 0 <= i < j < |log| ==> LockOrder(log, i, j))
  }

  /** Among the first n records an uncommitted transaction changed the row. */
  ghost predicate Lost(log: Log, rid: RecordID, n: nat)
    requires n <= |log|
  {
    exists i :: 0 <= i < n && On(log[i], rid) && !Wins(log, log[i])
  }

  // ----- Facts about logs

  lemma {:induction false} ValuesAgree(log: Log, n: nat, base: Contents, rid: RecordID)
    requires n <= |log|
    requires forall i :: 0 <= i < n && On(log[i], rid) ==> Wins(log, log[i])
    ensures CommittedValue(log, n, base, rid) == Value(log, n, base, rid)
  {
    if n > 0 && !On(log[n - 1], rid) {
      ValuesAgree(log, n - 1, base, rid);
    }
  }

  lemma {:induction false} CommittedStays(log: Log, m: nat, n: nat, base: Contents, rid: RecordID)
    requires m <= n <= |log|
    requires forall i :: m <= i < n && On(log[i], rid) ==> !Wins(log, log[i])
    ensures CommittedValue(log, n, base, rid) == CommittedValue(log, m, base, rid)
    decreases n
  {
    if m < n {
      CommittedStays(log, m, n - 1, base, rid);
    }
  }

  /** The last committed change of a row decides its target. */
  lemma LastWinner(log: Log, i: nat, base: Contents, rid: RecordID)
    requires i < |log| && On(log[i], rid) && Wins(log, log[i])
    requires forall j :: i < j < |log| && On(log[j], rid) ==> !Wins(log, log[j])
    ensures Target(log, base, rid) == Effect(log[i])
  {
    CommittedStays(log, i + 1, |log|, base, rid);
  }

  /** Undoing a row's first uncommitted change gives the row its target. */
  lemma FirstLoser(log: Log, i: nat, base: Contents, rid: RecordID)
    requires LogOk(log, base) && i < |log| && On(log[i], rid) && !Wins(log, log[i])
    requires forall j :: 0 <= j < i && On(log[j], rid) ==> Wins(log, log[j])
    ensures Target(log, base, rid) == Inverse(log[i])
  {
    assert RecordOk(log, base, i);
    ValuesAgree(log, i, base, rid);
    forall j | i <= j < |log| && On(log[j], rid) ensures !Wins(log, log[j]) {
      if i < j {
        Handover(log, base, i, j, rid);
      }
    }
    CommittedStays(log, i, |log|, base, rid);
  }

  /** Two changes of a row are one transaction's, or the first one's transaction committed. */
  lemma Handover(log: Log, base: Contents, i: nat, j: nat, rid: RecordID)
    requires LogOk(log, base) && i < j < |log| && On(log[i], rid) && On(log[j], rid)
    ensures log[j].txnId == log[i].txnId || Wins(log, log[i])
  {
    assert LockOrder(log, i, j);
    if log[j].txnId != log[i].txnId {
      var k :| i < k < j && log[k].kind.Commit? && log[k].txnId == log[i].txnId;
      assert log[k].txnId in Committed(log);
    }
  }

  // ----- Disks

  function Fetch(disk: Disk, pid: int): PageState {
    if pid in disk then disk[pid] else EMPTY_PAGE
  }

  function SlotValue(p: PageState, slot: int): Record {
    if 0 <= slot < |p.slots| then p.slots[slot] else []
  }

  /** What a row holds on a disk. */
  function Stored(disk: Disk, rid: RecordID): Record {
    SlotValue(Fetch(disk, rid.page), rid.slot)
  }

  /** The state of one row on a disk recovery may start from. Rows an uncommitted transaction
      changed may hold anything; other rows hold their target already, or a committed change
      newer than the page awaits redo. */
  ghost predicate RowOk(log: Log, base: Contents, p: PageState, rid: RecordID) {
    || Lost(log, rid, |log|)
    || (exists i :: 0 <= i < |log| && On(log[i], rid) && Wins(log, log[i]) && p.lsn < log[i].lsn)
    || SlotValue(p, rid.slot) == Target(log, base, rid)
  }

  /** Disks from which recovery yields the target, if there is room: what a crash leaves, and
      what any interrupted recovery leaves. */
  ghost predicate Recoverable(log: Log, base: Contents, disk: Disk) {
    forall rid: RecordID :: RowOk(log, base, Fetch(disk, rid.page), rid)
  }

  /** A crash: each page, independently of the others, is as some log prefix left it and
      carries an LSN older than the log. */
  ghost predicate CrashDisk(log: Log, base: Contents, disk: Disk) {
    forall pid :: PageAsOf(log, base, Fetch(disk, pid), pid)
  }

  ghost predicate PageAsOf(log: Log, base: Contents, p: PageState, pid: int) {
    && (log != [] ==> p.lsn < log[0].lsn)
    && exists n :: 0 <= n <= |log| && HoldsPrefix(log, base, p, pid, n)
  }

  ghost predicate HoldsPrefix(log: Log, base: Contents, p: PageState, pid: int, n: nat)
    requires n <= |log|
  {
    forall slot :: SlotValue(p, slot) == Value(log, n, base, RecordID(pid, slot))
  }

  lemma CrashIsRecoverable(log: Log, base: Contents, disk: Disk)
    requires LogOk(log, base) && CrashDisk(log, base, disk)
    ensures Recoverable(log, base, disk)
  {
    forall rid: RecordID ensures RowOk(log, base, Fetch(disk, rid.page), rid) {
      assert PageAsOf(log, base, Fetch(disk, rid.page), rid.page);
      CrashRow(log, base, Fetch(disk, rid.page), rid);
    }
  }

  lemma CrashRow(log: Log, base: Contents, p: PageState, rid: RecordID)
    requires LogOk(log, base) && PageAsOf(log, base, p, rid.page)
    ensures RowOk(log, base, p, rid)
  {
    hide Value, CommittedValue, RecordOk, LockOrder, SlotValue;
    if exists i :: 0 <= i < |log| && On(log[i], rid) {
      var i :| 0 <= i < |log| && On(log[i], rid);
      assert i == 0 || log[0].lsn < log[i].lsn;
    } else {
      var n :| 0 <= n <= |log| && HoldsPrefix(log, base, p, rid.page, n);
      assert rid == RecordID(rid.page, rid.slot);
      assert SlotValue(p, rid.slot) == Value(log, n, base, RecordID(rid.page, rid.slot));
      ValuesAgree(log, n, base, rid);
      CommittedStays(log, n, |log|, base, rid);
    }
  }

  /** A page whose records lie between its slot array and its end, as real pages do. */
  predicate Sound(p: PageState) {
    SlotEnd(|p.slots|) <= p.freeEnd <= PAGE_SIZE && TotalLength(p.slots) <= PAGE_SIZE - p.freeEnd
  }

  lemma RealPagesSound(b: seq<Byte>)
    requires Structured(b)
    ensures Sound(StateOf(b))
  {
    hide TotalLength;
    LiveBytesFit(b);
    StructuredCounts(b);
  }

  ghost predicate SoundDisk(disk: Disk) {
    forall pid :: Sound(Fetch(disk, pid))
  }

  // ----- What recovery does to one page

  /** The record of recovery's step t: the log forwards, and then backwards. */
  function StepRecord(log: Log, t: nat): LogRecord
    requires t < 2 * |log|
  {
    if t < |log| then log[t] else log[2 * |log| - 1 - t]
  }

  /** Step t concerns the page: a committed change on the way forwards, an uncommitted one on
      the way back. */
  predicate Acts(log: Log, t: nat, pid: int)
    requires t < 2 * |log|
  {
    var r := StepRecord(log, t);
    IsChange(r) && r.rid.page == pid && (t < |log| <==> Wins(log, r))
  }

  /** What step t puts into its row; nothing for a row it empties. */
  function StepValue(log: Log, t: nat): Record
    requires t < 2 * |log|
  {
    if t < |log| then Effect(log[t]) else Inverse(log[2 * |log| - 1 - t])
  }

  /** Undoing is not guarded by an LSN. */
  function StepLsn(log: Log, t: nat): nat
    requires t < 2 * |log|
  {
    if t < |log| then log[t].lsn else 0
  }

  /** A page after a record was placed at an exact slot. */
  function SetPage(p: PageState, slot: int, rec: Record, lsn: nat): PageState {
    if slot < 0 || TotalLength(p.slots) > PAGE_SIZE then p else AfterSet(p, slot, rec, lsn).0
  }

  function PageStep(log: Log, t: nat, pid: int, p: PageState): PageState
    requires t < 2 * |log|
  {
    if !Acts(log, t, pid) then p
    else if StepValue(log, t) == [] then AfterClear(p, StepRecord(log, t).rid.slot, StepLsn(log, t))
    else SetPage(p, StepRecord(log, t).rid.slot, StepValue(log, t), StepLsn(log, t))
  }

  /** A page after the first n steps of recovery. */
  function PageAfter(log: Log, pid: int, p: PageState, n: nat): PageState
    requires n <= 2 * |log|
  {
    if n == 0 then p else PageStep(log, n - 1, pid, PageAfter(log, pid, p, n - 1))
  }

  /** Step t has to store a record: the page neither has the change by its LSN nor holds the
      record. */
  predicate Stores(log: Log, t: nat, pid: int, p: PageState)
    requires t < 2 * |log|
  {
    && Acts(log, t, pid) && StepValue(log, t) != [] && StepRecord(log, t).rid.slot >= 0
    && !Skips(p, StepLsn(log, t)) && !Holds(p, StepRecord(log, t).rid.slot, StepValue(log, t))
  }

  /** If the slot array has to grow for it, it grows into free space. */
  predicate GrowsFreely(log: Log, t: nat, pid: int, p: PageState)
    requires t < 2 * |log|
  {
    Stores(log, t, pid, p) ==> CanGrow(p, StepRecord(log, t).rid.slot)
  }

  predicate RoomForStep(log: Log, t: nat, pid: int, p: PageState)
    requires t < 2 * |log|
  {
    Stores(log, t, pid, p) ==> HasRoom(p, StepRecord(log, t).rid.slot, StepValue(log, t))
  }

  ghost predicate Growable(log: Log, pid: int, p: PageState) {
    forall t :: 0 <= t < 2 * |log| ==> GrowsFreely(log, t, pid, PageAfter(log, pid, p, t))
  }

  ghost predicate GrowableDisk(log: Log, disk: Disk) {
    forall pid :: Growable(log, pid, Fetch(disk, pid))
  }

  lemma SetSound(p: PageState, slot: int, rec: Record, lsn: nat)
    requires Sound(p) && rec != [] && (slot >= 0 && !Skips(p, lsn) && !Holds(p, slot, rec) ==> CanGrow(p, slot))
    ensures Sound(SetPage(p, slot, rec, lsn))
  {
    hide TotalLength, Pad;
    if slot >= 0 {
      PadTotal(p.slots, slot + 1);
      var g := Grown(p, slot);
      assert |g.slots| == if slot < |p.slots| then |p.slots| else slot + 1;
      TotalUpdate(g.slots, slot, rec);
    }
  }

  lemma ClearSound(p: PageState, slot: int, lsn: nat)
    requires Sound(p)
    ensures Sound(AfterClear(p, slot, lsn))
  {
    hide TotalLength;
    if 0 <= slot < |p.slots| {
      TotalUpdate(p.slots, slot, []);
    }
  }

  lemma StepSound(log: Log, t: nat, pid: int, p: PageState)
    requires t < 2 * |log| && Sound(p) && GrowsFreely(log, t, pid, p)
    ensures Sound(PageStep(log, t, pid, p))
  {
    hide Sound, SetPage, AfterClear, Skips, Holds, CanGrow;
    if Acts(log, t, pid) {
      if StepValue(log, t) == [] {
        ClearSound(p, StepRecord(log, t).rid.slot, StepLsn(log, t));
      } else {
        SetSound(p, StepRecord(log, t).rid.slot, StepValue(log, t), StepLsn(log, t));
      }
    }
  }

  /** Recovery keeps pages sound. */
  lemma {:induction false} RunSound(log: Log, pid: int, p: PageState, n: nat)
    requires n <= 2 * |log| && Sound(p) && Growable(log, pid, p)
    ensures Sound(PageAfter(log, pid, p, n))
  {
    hide Sound, PageStep, GrowsFreely;
    if n > 0 {
      RunSound(log, pid, p, n - 1);
      assert GrowsFreely(log, n - 1, pid, PageAfter(log, pid, p, n - 1));
      StepSound(log, n - 1, pid, PageAfter(log, pid, p, n - 1));
    }
  }

  // ----- What recovery does to one row

  /** Step t concerns the row. */
  predicate ActsOn(log: Log, t: nat, rid: RecordID)
    requires t < 2 * |log|
  {
    Acts(log, t, rid.page) && StepRecord(log, t).rid == rid
  }

  /** A store changes its own row only. */
  lemma SetElsewhere(p: PageState, slot: int, rec: Record, lsn: nat, other: int)
    requires other != slot
    ensures SlotValue(SetPage(p, slot, rec, lsn), other) == SlotValue(p, other)
  {
    hide TotalLength;
    if slot >= 0 {
      PadTotal(p.slots, slot + 1);
    }
  }

  lemma StepElsewhere(log: Log, t: nat, p: PageState, rid: RecordID)
    requires t < 2 * |log| && !ActsOn(log, t, rid)
    ensures SlotValue(PageStep(log, t, rid.page, p), rid.slot) == SlotValue(p, rid.slot)
  {
    hide SetPage, StepValue, SlotValue;
    if Acts(log, t, rid.page) {
      var slot := StepRecord(log, t).rid.slot;
      assert slot != rid.slot;
      if StepValue(log, t) == [] {
        ClearElsewhere(p, slot, StepLsn(log, t), rid.slot);
      } else {
        SetElsewhere(p, slot, StepValue(log, t), StepLsn(log, t), rid.slot);
      }
    }
  }

  lemma ClearElsewhere(p: PageState, slot: int, lsn: nat, other: int)
    requires other != slot
    ensures SlotValue(AfterClear(p, slot, lsn), other) == SlotValue(p, other)
  {
  }

  /** A step on its row, unless the page is newer: the row takes the value exactly if there is
      room, and stays as it was otherwise. */
  lemma StepHere(log: Log, t: nat, p: PageState, rid: RecordID)
    requires t < 2 * |log| && ActsOn(log, t, rid) && Sound(p) && rid.slot >= 0 && |StepValue(log, t)| <= 0xFFFF
    ensures var q := PageStep(log, t, rid.page, p);
      if Skips(p, StepLsn(log, t)) then q == p
      else SlotValue(q, rid.slot) == StepValue(log, t) <==> RoomForStep(log, t, rid.page, p)
    ensures var q := PageStep(log, t, rid.page, p);
      q.lsn == p.lsn || (t < |log| && q.lsn == log[t].lsn)
    ensures !Skips(p, StepLsn(log, t)) && RoomForStep(log, t, rid.page, p) && t < |log| && log[t].lsn > 0 ==> PageStep(log, t, rid.page, p).lsn == log[t].lsn
  {
    hide StepValue, StepRecord, TotalLength, UsableSpace, FreeSpace;
    var rec := StepValue(log, t);
    if rec != [] {
      PadTotal(p.slots, rid.slot + 1);
    }
  }

  /** LSNs rise during recovery, and only to those of records redone. */
  lemma {:induction false} RunLsn(log: Log, pid: int, p: PageState, n: nat)
    requires n <= 2 * |log|
    ensures var q := PageAfter(log, pid, p, n);
      p.lsn <= q.lsn && (q.lsn == p.lsn || exists j :: 0 <= j < n && j < |log| && q.lsn == log[j].lsn)
  {
    if n > 0 {
      hide PageStep;
      RunLsn(log, pid, p, n - 1);
      StepRaises(log, n - 1, pid, PageAfter(log, pid, p, n - 1));
    }
  }

  lemma StepRaises(log: Log, t: nat, pid: int, p: PageState)
    requires t < 2 * |log|
    ensures var q := PageStep(log, t, pid, p);
      p.lsn <= q.lsn && (q.lsn == p.lsn || (t < |log| && q.lsn == log[t].lsn))
  {
    hide TotalLength, HasRoom, PadFits;
    var slot := StepRecord(log, t).rid.slot;
    if slot >= 0 {
      PadTotal(p.slots, slot + 1);
    }
  }

  /** A row no step concerns from step m on keeps its value. */
  lemma {:induction false} RowKept(log: Log, p: PageState, rid: RecordID, m: nat, n: nat)
    requires m <= n <= 2 * |log| && forall t :: m <= t < n ==> !ActsOn(log, t, rid)
    ensures SlotValue(PageAfter(log, rid.page, p, n), rid.slot) == SlotValue(PageAfter(log, rid.page, p, m), rid.slot)
    decreases n
  {
    hide PageStep, SlotValue, ActsOn;
    if m < n {
      RowKept(log, p, rid, m, n - 1);
      StepElsewhere(log, n - 1, PageAfter(log, rid.page, p, n - 1), rid);
    }
  }

  /** So does one all of whose changes the page has, by its LSN. */
  lemma {:induction false} RowSkipped(log: Log, p: PageState, rid: RecordID, n: nat)
    requires n <= 2 * |log| && forall t :: 0 <= t < n && ActsOn(log, t, rid) ==> Skips(p, StepLsn(log, t))
    ensures SlotValue(PageAfter(log, rid.page, p, n), rid.slot) == SlotValue(p, rid.slot)
  {
    hide SlotValue, ActsOn;
    if n > 0 {
      var q := PageAfter(log, rid.page, p, n - 1);
      RowSkipped(log, p, rid, n - 1);
      RunLsn(log, rid.page, p, n - 1);
      if ActsOn(log, n - 1, rid) {
        assert Skips(q, StepLsn(log, n - 1));
        SkippedStep(log, n - 1, rid.page, q);
      } else {
        StepElsewhere(log, n - 1, q, rid);
      }
    }
  }

  lemma SkippedStep(log: Log, t: nat, pid: int, p: PageState)
    requires t < 2 * |log| && Skips(p, StepLsn(log, t))
    ensures PageStep(log, t, pid, p) == p
  {
  }

  /** Step t is the last one on the row. */
  ghost predicate DecidedBy(log: Log, t: nat, rid: RecordID) {
    t < 2 * |log| && ActsOn(log, t, rid) && forall u :: t < u < 2 * |log| ==> !ActsOn(log, u, rid)
  }

  lemma {:induction false} LastStep(log: Log, rid: RecordID, n: nat) returns (t: int)
    requires n <= 2 * |log|
    ensures -1 <= t < n && (t >= 0 ==> ActsOn(log, t, rid)) && forall u :: t < u < n && u >= 0 ==> !ActsOn(log, u, rid)
  {
    hide ActsOn;
    if n == 0 {
      t := -1;
    } else if ActsOn(log, n - 1, rid) {
      t := n - 1;
    } else {
      t := LastStep(log, rid, n - 1);
    }
  }

  /** A redone change is a step forwards, an undone one a step back. */
  lemma StepOf(log: Log, i: nat, rid: RecordID)
    requires i < |log| && On(log[i], rid)
    ensures if Wins(log, log[i]) then ActsOn(log, i, rid) else ActsOn(log, 2 * |log| - 1 - i, rid)
  {
  }

  /** What the deciding step stores is the row's target. */
  lemma DecidingValue(log: Log, base: Contents, t: nat, rid: RecordID)
    requires LogOk(log, base) && DecidedBy(log, t, rid)
    ensures Target(log, base, rid) == StepValue(log, t)
    ensures t < |log| <==> !Lost(log, rid, |log|)
  {
    hide LogOk, Target, Effect, Inverse;
    if t < |log| {
      forall j | 0 <= j < |log| && On(log[j], rid) ensures Wins(log, log[j]) && j <= t {
        StepOf(log, j, rid);
      }
      LastWinner(log, t, base, rid);
    } else {
      var i := 2 * |log| - 1 - t;
      forall j | 0 <= j < i && On(log[j], rid) ensures Wins(log, log[j]) {
        StepOf(log, j, rid);
      }
      FirstLoser(log, i, base, rid);
    }
  }

  lemma UntouchedTarget(log: Log, base: Contents, rid: RecordID)
    requires forall t :: 0 <= t < 2 * |log| ==> !ActsOn(log, t, rid)
    ensures !Lost(log, rid, |log|) && forall i :: 0 <= i < |log| ==> !On(log[i], rid)
  {
    hide ActsOn;
    forall i | 0 <= i < |log| ensures !On(log[i], rid) {
      if On(log[i], rid) {
        StepOf(log, i, rid);
      }
    }
  }

  // ----- When a row is recovered

  /** When recovery reaches the step that decides the row, there is room for what it stores. */
  ghost predicate RowFits(log: Log, p: PageState, rid: RecordID) {
    forall t :: DecidedBy(log, t, rid) ==> RoomForStep(log, t, rid.page, PageAfter(log, rid.page, p, t))
  }

  ghost predicate DiskFits(log: Log, disk: Disk) {
    forall rid: RecordID :: RowFits(log, Fetch(disk, rid.page), rid)
  }

  /** The deciding step finds its change already on the page: the row had its target from the
      beginning, and no step changes it. */
  lemma DecidedBefore(log: Log, base: Contents, p: PageState, rid: RecordID, t: nat, n: nat)
    requires LogOk(log, base) && RowOk(log, base, p, rid) && DecidedBy(log, t, rid) && n <= 2 * |log|
    requires t < |log| && log[t].lsn <= p.lsn
    ensures SlotValue(PageAfter(log, rid.page, p, n), rid.slot) == Target(log, base, rid)
  {
    hide RecordOk, LockOrder, SlotValue, Target, PageAfter;
    DecidingValue(log, base, t, rid);
    forall j | 0 <= j < |log| && On(log[j], rid) ensures Wins(log, log[j]) && j <= t {
      StepOf(log, j, rid);
    }
    assert forall j :: 0 <= j < t ==> log[j].lsn < log[t].lsn;
    assert RecordOk(log, base, t);
    forall u | 0 <= u < n && ActsOn(log, u, rid) ensures Skips(p, StepLsn(log, u)) {
      assert u <= t;
      RecordFields(log, base, u);
    }
    RowSkipped(log, p, rid, n);
  }

  lemma RecordFields(log: Log, base: Contents, i: nat)
    requires LogOk(log, base) && i < |log|
    ensures 0 < log[i].lsn < Power256(8)
    ensures IsChange(log[i]) ==> 0 <= log[i].rid.slot && SlotEnd(log[i].rid.slot + 1) <= PAGE_SIZE
    ensures IsChange(log[i]) ==> |Effect(log[i])| <= 0xFFFF && |Inverse(log[i])| <= 0xFFFF
    ensures log[i].kind.Insert? ==> 0 < |Effect(log[i])| && Inverse(log[i]) == []
    ensures log[i].kind.Delete? ==> 0 < |Inverse(log[i])| && Effect(log[i]) == []
  {
    hide Value, LockOrder;
    assert RecordOk(log, base, i);
  }

  lemma StepFields(log: Log, base: Contents, t: nat, rid: RecordID)
    requires LogOk(log, base) && t < 2 * |log| && ActsOn(log, t, rid)
    ensures rid.slot >= 0 && SlotEnd(rid.slot + 1) <= PAGE_SIZE && |StepValue(log, t)| <= 0xFFFF
    ensures t < |log| ==> log[t].lsn > 0
  {
    hide LogOk, Effect, Inverse;
    RecordFields(log, base, if t < |log| then t else 2 * |log| - 1 - t);
  }

  /** Before its deciding step a page is older than that step's record, unless it was from the
      beginning. */
  lemma OlderBefore(log: Log, base: Contents, p: PageState, pid: int, t: nat)
    requires LogOk(log, base) && t < |log| && p.lsn < log[t].lsn
    ensures PageAfter(log, pid, p, t).lsn < log[t].lsn
  {
    hide RecordOk, LockOrder, PageAfter;
    RunLsn(log, pid, p, t);
  }

  /** A row after its deciding step, taken when the page was older: it has its target exactly if
      there was room, and no later step changes it. */
  lemma DecidedNow(log: Log, base: Contents, p: PageState, rid: RecordID, t: nat, n: nat)
    requires LogOk(log, base) && DecidedBy(log, t, rid) && Sound(p) && Growable(log, rid.page, p)
    requires t < n <= 2 * |log| && (t < |log| ==> p.lsn < log[t].lsn)
    ensures SlotValue(PageAfter(log, rid.page, p, n), rid.slot) == Target(log, base, rid)
      <==> RoomForStep(log, t, rid.page, PageAfter(log, rid.page, p, t))
  {
    hide LogOk, Target, SlotValue, Sound, Growable, StepValue, RoomForStep, PageStep, ActsOn;
    var q := PageAfter(log, rid.page, p, t);
    DecidingValue(log, base, t, rid);
    StepFields(log, base, t, rid);
    RunSound(log, rid.page, p, t);
    if t < |log| {
      OlderBefore(log, base, p, rid.page, t);
    }
    assert !Skips(q, StepLsn(log, t));
    StepHere(log, t, q, rid);
    RowKept(log, p, rid, t + 1, n);
  }

  /** Recovery gives a row its target if and only if there is room at the step that decides it. */
  lemma RecoversIff(log: Log, base: Contents, p: PageState, rid: RecordID)
    requires LogOk(log, base) && RowOk(log, base, p, rid) && Sound(p) && Growable(log, rid.page, p)
    ensures SlotValue(PageAfter(log, rid.page, p, 2 * |log|), rid.slot) == Target(log, base, rid) <==> RowFits(log, p, rid)
  {
    hide LogOk, Target, SlotValue, Sound, Growable, RoomForStep, ActsOn, PageAfter;
    var t := LastStep(log, rid, 2 * |log|);
    if t == -1 {
      UntouchedTarget(log, base, rid);
      RowKept(log, p, rid, 0, 2 * |log|);
      NoSteps(log, rid.page, p);
    } else {
      assert DecidedBy(log, t, rid);
      assert forall u :: DecidedBy(log, u, rid) ==> u == t;
      if t < |log| && log[t].lsn <= p.lsn {
        DecidedBefore(log, base, p, rid, t, 2 * |log|);
        RunLsn(log, rid.page, p, t);
        StepFields(log, base, t, rid);
        NewerHasRoom(log, t, rid.page, PageAfter(log, rid.page, p, t));
      } else {
        DecidedNow(log, base, p, rid, t, 2 * |log|);
      }
    }
  }

  lemma NoSteps(log: Log, pid: int, p: PageState)
    ensures PageAfter(log, pid, p, 0) == p
  {
  }

  lemma NewerHasRoom(log: Log, t: nat, pid: int, p: PageState)
    requires t < |log| && 0 < log[t].lsn <= p.lsn
    ensures RoomForStep(log, t, pid, p)
  {
  }

  // ----- The recovery pass

  /** Among the first n records, pages of committed inserts are on their table's list. */
  ghost predicate Listed(log: Log, lists: map<int, seq<int>>, n: nat)
    requires n <= |log|
  {
    forall i :: 0 <= i < n && log[i].kind.Insert? && Wins(log, log[i]) ==> OnList(lists, log[i])
  }

  predicate OnList(lists: map<int, seq<int>>, r: LogRecord) {
    r.tableId in lists && r.rid.page in lists[r.tableId]
  }

  ghost predicate ListsGrow(a: map<int, seq<int>>, b: map<int, seq<int>>) {
    forall t :: t in a ==> t in b && a[t] <= b[t]
  }

  /** The disk after the first n steps of recovery. */
  ghost predicate DiskAfter(log: Log, first: Disk, disk: Disk, n: nat)
    requires n <= 2 * |log|
  {
    forall pid :: Fetch(disk, pid) == PageAfter(log, pid, Fetch(first, pid), n)
  }

  /** The heap tables: the pages of the buffer pool and the page list of each table. */
  class TableManager {
    var disk: Disk
    var lists: map<int, seq<int>>

    constructor (disk: Disk, lists: map<int, seq<int>>)
      ensures this.disk == disk && this.lists == lists
    {
      this.disk := disk;
      this.lists := lists;
    }

    /** Adds a page to a table's list unless it is there. */
    method NotePage(tableId: int, pid: int)
      modifies this`lists
      ensures tableId in lists && pid in lists[tableId] && ListsGrow(old(lists), lists)
    {
      var list := if tableId in lists then lists[tableId] else [];
      if pid !in list {
        list := list + [pid];
      }
      lists := lists[tableId := list];
    }

    /** Places a tuple at its record id, guarded by the page LSN (none when lsn is 0). The slot
        array must not grow into records. */
    method SetTuple(tableId: int, rid: RecordID, bytes: Record, lsn: nat)
      requires Sound(Fetch(disk, rid.page)) && 0 <= rid.slot
      requires !Skips(Fetch(disk, rid.page), lsn) && !Holds(Fetch(disk, rid.page), rid.slot, bytes) ==> CanGrow(Fetch(disk, rid.page), rid.slot)
      modifies this`disk, this`lists
      ensures disk == old(disk)[rid.page := SetPage(Fetch(old(disk), rid.page), rid.slot, bytes, lsn)]
      ensures tableId in lists && rid.page in lists[tableId] && ListsGrow(old(lists), lists)
    {
      var (page, ok) := AfterSet(Fetch(disk, rid.page), rid.slot, bytes, lsn);
      disk := disk[rid.page := page];
      NotePage(tableId, rid.page);
    }

    method ClearTuple(rid: RecordID, lsn: nat)
      modifies this`disk
      ensures disk == old(disk)[rid.page := AfterClear(Fetch(old(disk), rid.page), rid.slot, lsn)]
    {
      disk := disk[rid.page := AfterClear(Fetch(disk, rid.page), rid.slot, lsn)];
    }

    /** Redoes one committed change. */
    method Redo(log: Log, i: nat, ghost base: Contents)
      requires LogOk(log, base) && i < |log| && Wins(log, log[i])
      requires Sound(Fetch(disk, log[i].rid.page)) && GrowsFreely(log, i, log[i].rid.page, Fetch(disk, log[i].rid.page))
      modifies this
      ensures forall pid :: Fetch(disk, pid) == PageStep(log, i, pid, Fetch(old(disk), pid))
      ensures ListsGrow(old(lists), lists) && (log[i].kind.Insert? ==> OnList(lists, log[i]))
    {
      hide LogOk, Sound, AfterClear, SetPage, Skips, Holds, CanGrow;
      var r := log[i];
      RecordFields(log, base, i);
      if r.kind.Insert? {
        SetTuple(r.tableId, r.rid, r.after, r.lsn);
      } else if r.kind.Delete? {
        ClearTuple(r.rid, r.lsn);
      }
    }

    /** Undoes one uncommitted change. */
    method Undo(log: Log, i: nat, ghost base: Contents)
      requires LogOk(log, base) && i < |log| && !Wins(log, log[i])
      requires Sound(Fetch(disk, log[i].rid.page)) && GrowsFreely(log, 2 * |log| - 1 - i, log[i].rid.page, Fetch(disk, log[i].rid.page))
      modifies this
      ensures forall pid :: Fetch(disk, pid) == PageStep(log, 2 * |log| - 1 - i, pid, Fetch(old(disk), pid))
      ensures ListsGrow(old(lists), lists)
    {
      hide LogOk, Sound, AfterClear, SetPage, Skips, Holds, CanGrow;
      var r := log[i];
      RecordFields(log, base, i);
      if r.kind.Insert? {
        ClearTuple(r.rid, 0);
      } else if r.kind.Delete? {
        SetTuple(r.tableId, r.rid, r.before, 0);
      }
    }

    /** The forward pass over the log. */
    method RedoPass(log: Log, ghost base: Contents)
      requires LogOk(log, base) && SoundDisk(disk) && GrowableDisk(log, disk)
      modifies this
      ensures DiskAfter(log, old(disk), disk, |log|) && Listed(log, lists, |log|)
    {
      hide LogOk, DiskAfter, Listed, ListsGrow, OnList, Sound, SoundDisk, GrowableDisk, GrowsFreely, PageStep, Fetch, Wins, Committed;
      var committed := Committed(log);
      var i := 0;
      Start(log, disk, lists);
      while i < |log|
        invariant 0 <= i <= |log|
        invariant DiskAfter(log, old(disk), disk, i) && Listed(log, lists, i)
      {
        ghost var disk0, lists0 := disk, lists;
        WinsIf(log, log[i], committed);
        if log[i].txnId in committed {
          Ready(log, old(disk), disk, i, log[i].rid.page);
          Redo(log, i, base);
          DiskStep(log, old(disk), disk0, disk, i);
          ListedStep(log, lists0, lists, i);
        } else {
          NoStep(log, old(disk), disk, i);
          ListedSkip(log, lists, i);
        }
        i := i + 1;
      }
    }

    /** The backward pass over the log. */
    method UndoPass(log: Log, ghost base: Contents, ghost first: Disk)
      requires LogOk(log, base) && SoundDisk(first) && GrowableDisk(log, first)
      requires DiskAfter(log, first, disk, |log|) && Listed(log, lists, |log|)
      modifies this
      ensures DiskAfter(log, first, disk, 2 * |log|) && Listed(log, lists, |log|)
    {
      hide LogOk, DiskAfter, Listed, ListsGrow, OnList, Sound, SoundDisk, GrowableDisk, GrowsFreely, PageStep, Fetch, Wins, Committed;
      var committed := Committed(log);
      var i := |log|;
      while i > 0
        invariant 0 <= i <= |log|
        invariant DiskAfter(log, first, disk, 2 * |log| - i) && Listed(log, lists, |log|)
      {
        i := i - 1;
        ghost var disk0, lists0 := disk, lists;
        WinsIf(log, log[i], committed);
        if log[i].txnId !in committed {
          Ready(log, first, disk, 2 * |log| - 1 - i, log[i].rid.page);
          Undo(log, i, base);
          DiskStep(log, first, disk0, disk, 2 * |log| - 1 - i);
          ListedStays(log, lists0, lists, |log|);
        } else {
          NoStep(log, first, disk, 2 * |log| - 1 - i);
        }
      }
    }

    /** Recovery: analysis, redo of committed changes in log order, undo of the others in
        reverse. Every page ends as its own steps leave it. Whatever mixture of old and new
        pages the crash left, a row ends with the contents the committed transactions alone
        produce if and only if there was room at the step that decides it. */
    method Recover(log: Log, ghost base: Contents)
      requires LogOk(log, base) && Recoverable(log, base, disk) && SoundDisk(disk) && GrowableDisk(log, disk)
      modifies this
      ensures DiskAfter(log, old(disk), disk, 2 * |log|) && Listed(log, lists, |log|)
      ensures forall rid :: Stored(disk, rid) == Target(log, base, rid) <==> RowFits(log, Fetch(old(disk), rid.page), rid)
    {
      hide LogOk, Listed, Target, Recoverable, SoundDisk, GrowableDisk, RowFits, Stored, DiskAfter;
      RedoPass(log, base);
      UndoPass(log, base, old(disk));
      RowsRecovered(log, base, old(disk), disk);
    }
  }

  // ----- Facts of the pass

  lemma Start(log: Log, disk: Disk, lists: map<int, seq<int>>)
    ensures DiskAfter(log, disk, disk, 0) && Listed(log, lists, 0)
  {
  }

  lemma WinsIf(log: Log, r: LogRecord, committed: set<int>)
    requires committed == Committed(log)
    ensures Wins(log, r) <==> r.txnId in committed
  {
  }

  /** The next step finds a sound page and grows it freely. */
  lemma Ready(log: Log, first: Disk, disk: Disk, t: nat, pid: int)
    requires t < 2 * |log| && SoundDisk(first) && GrowableDisk(log, first) && DiskAfter(log, first, disk, t)
    ensures Sound(Fetch(disk, pid)) && GrowsFreely(log, t, pid, Fetch(disk, pid))
  {
    hide Sound, GrowsFreely, PageAfter, Fetch;
    assert Fetch(disk, pid) == PageAfter(log, pid, Fetch(first, pid), t);
    assert Growable(log, pid, Fetch(first, pid)) && Sound(Fetch(first, pid));
    RunSound(log, pid, Fetch(first, pid), t);
  }

  lemma DiskStep(log: Log, first: Disk, d: Disk, e: Disk, t: nat)
    requires t < 2 * |log| && DiskAfter(log, first, d, t) && forall pid :: Fetch(e, pid) == PageStep(log, t, pid, Fetch(d, pid))
    ensures DiskAfter(log, first, e, t + 1)
  {
    hide Fetch, PageStep;
    forall pid ensures Fetch(e, pid) == PageAfter(log, pid, Fetch(first, pid), t + 1) {
      assert Fetch(d, pid) == PageAfter(log, pid, Fetch(first, pid), t);
    }
  }

  lemma NoStep(log: Log, first: Disk, d: Disk, t: nat)
    requires t < 2 * |log| && DiskAfter(log, first, d, t)
    requires !IsChange(StepRecord(log, t)) || (t < |log| <==> !Wins(log, StepRecord(log, t)))
    ensures DiskAfter(log, first, d, t + 1)
  {
    hide Fetch, PageAfter, DiskAfter, Wins, IsChange;
    forall pid ensures Fetch(d, pid) == PageStep(log, t, pid, Fetch(d, pid)) {
    }
    DiskStep(log, first, d, d, t);
  }

  lemma RowsRecovered(log: Log, base: Contents, first: Disk, disk: Disk)
    requires LogOk(log, base) && Recoverable(log, base, first) && SoundDisk(first) && GrowableDisk(log, first)
    requires DiskAfter(log, first, disk, 2 * |log|)
    ensures forall rid :: Stored(disk, rid) == Target(log, base, rid) <==> RowFits(log, Fetch(first, rid.page), rid)
  {
    hide LogOk, Target, RowOk, Sound, Growable, RowFits, Fetch, PageAfter, SlotValue;
    forall rid: RecordID ensures Stored(disk, rid) == Target(log, base, rid) <==> RowFits(log, Fetch(first, rid.page), rid) {
      assert Sound(Fetch(first, rid.page)) && Growable(log, rid.page, Fetch(first, rid.page)) && RowOk(log, base, Fetch(first, rid.page), rid);
      assert Fetch(disk, rid.page) == PageAfter(log, rid.page, Fetch(first, rid.page), 2 * |log|);
      RecoversIff(log, base, Fetch(first, rid.page), rid);
    }
  }

  lemma ListedStays(log: Log, a: map<int, seq<int>>, b: map<int, seq<int>>, n: nat)
    requires n <= |log| && Listed(log, a, n) && ListsGrow(a, b)
    ensures Listed(log, b, n)
  {
    hide Wins;
    forall i | 0 <= i < n && log[i].kind.Insert? && Wins(log, log[i]) ensures OnList(b, log[i]) {
      assert OnList(a, log[i]);
    }
  }

  lemma ListedStep(log: Log, a: map<int, seq<int>>, b: map<int, seq<int>>, i: nat)
    requires i < |log| && Listed(log, a, i) && ListsGrow(a, b)
    requires log[i].kind.Insert? ==> OnList(b, log[i])
    ensures Listed(log, b, i + 1)
  {
    hide Wins, OnList, ListsGrow;
    ListedStays(log, a, b, i);
  }

  lemma ListedSkip(log: Log, lists: map<int, seq<int>>, i: nat)
    requires i < |log| && Listed(log, lists, i) && !Wins(log, log[i])
    ensures Listed(log, lists, i + 1)
  {
    hide Wins, OnList;
  }

  // ----- Why page LSNs must be older than the log

  /** Redo of an insertion puts the record in place if and only if the page's LSN is older and
      there is room, or the record is there already. */
  lemma RedoTakesIff(p: PageState, slot: nat, rec: Record, lsn: nat)
    requires TotalLength(p.slots) <= PAGE_SIZE && 0 < |rec| <= 0xFFFF && lsn > 0
    ensures SlotValue(AfterSet(p, slot, rec, lsn).0, slot) == rec <==> SlotValue(p, slot) == rec || (p.lsn < lsn && HasRoom(p, slot, rec))
  {
    hide TotalLength, UsableSpace, FreeSpace;
    PadTotal(p.slots, slot + 1);
  }

  /** Redo of a deletion empties the row if and only if the page's LSN is older, or the row is
      empty already. */
  lemma RedoClearsIff(p: PageState, slot: nat, lsn: nat)
    requires lsn > 0
    ensures SlotValue(AfterClear(p, slot, lsn), slot) == [] <==> p.lsn < lsn || SlotValue(p, slot) == []
  {
  }

  /** A log that numbers its records from 1 again, and a page stamped under the log before. */
  function RestartedLog(rid: RecordID, rec: Record): Log {
    [LogRecord(1, 1, Begin, 0, RecordID(0, 0), [], []), LogRecord(2, 1, Insert, 0, rid, [], rec), LogRecord(3, 1, Commit, 0, RecordID(0, 0), [], [])]
  }

  lemma SmallLsn(lsn: nat)
    requires lsn < 256
    ensures lsn < Power256(8)
  {
    assert Power256(2) == 256 * (256 * Power256(0));
    assert Power256(4) == 256 * (256 * Power256(2));
    assert Power256(8) == 256 * (256 * (256 * (256 * Power256(4))));
  }

  lemma RestartedLogOk(rid: RecordID, rec: Record)
    requires 0 <= rid.slot && SlotEnd(rid.slot + 1) <= PAGE_SIZE && 0 < |rec| <= 0xFFFF
    ensures LogOk(RestartedLog(rid, rec), _ => [])
  {
    hide Power256;
    var log := RestartedLog(rid, rec);
    SmallLsn(3);
    SmallLsn(2);
    SmallLsn(1);
    assert Value(log, 0, _ => [], rid) == [];
    assert Value(log, 1, _ => [], rid) == [];
    assert RecordOk(log, _ => [], 0) && RecordOk(log, _ => [], 1) && RecordOk(log, _ => [], 2);
    assert LockOrder(log, 0, 1) && LockOrder(log, 0, 2) && LockOrder(log, 1, 2);
  }

  /** After the log has been reset, the guard takes a committed insertion for done. */
  lemma StaleLsnLosesCommit()
    ensures var rid, rec := RecordID(0, 0), [7];
      var log, p := RestartedLog(rid, rec), PageState(5, [], PAGE_SIZE);
      && LogOk(log, _ => []) && TotalLength(p.slots) <= PAGE_SIZE
      && AfterSet(p, rid.slot, log[1].after, log[1].lsn) == (p, true)
      && SlotValue(p, rid.slot) == [] && Target(log, _ => [], rid) == rec
  {
    hide LogOk, Power256;
    var rid, rec := RecordID(0, 0), [7];
    var log := RestartedLog(rid, rec);
    RestartedLogOk(rid, rec);
    assert log[2].kind.Commit? && log[2].txnId == 1;
    assert Wins(log, log[1]);
    LastWinner(log, 1, _ => [], rid);
  }

  // ----- Why rolled-back transactions are left out

  /** A row that a transaction without a Commit record deleted comes back at its place, if there
      is room, also when the transaction was rolled back and the row put back elsewhere. */
  lemma DeletedReturnsIff(log: Log, p: PageState, i: nat, rid: RecordID)
    requires i < |log| && log[i].kind.Delete? && log[i].rid == rid && rid.slot >= 0 && |log[i].before| <= 0xFFFF && !Wins(log, log[i])
    requires forall j :: 0 <= j < i && On(log[j], rid) ==> Wins(log, log[j])
    requires Sound(p) && Growable(log, rid.page, p)
    ensures var t := 2 * |log| - 1 - i;
      SlotValue(PageAfter(log, rid.page, p, 2 * |log|), rid.slot) == log[i].before <==> RoomForStep(log, t, rid.page, PageAfter(log, rid.page, p, t))
  {
    hide SlotValue, Sound, Growable, RoomForStep, PageStep, Wins;
    var t := 2 * |log| - 1 - i;
    var q := PageAfter(log, rid.page, p, t);
    assert ActsOn(log, t, rid) && StepValue(log, t) == log[i].before;
    RunSound(log, rid.page, p, t);
    StepHere(log, t, q, rid);
    RowKept(log, p, rid, t + 1, 2 * |log|);
  }

  function RolledBackLog(row: Record): Log {
    [LogRecord(1, 1, Begin, 0, RecordID(0, 0), [], []), LogRecord(2, 1, Delete, 0, RecordID(0, 0), row, []), LogRecord(3, 1, Abort, 0, RecordID(0, 0), [], [])]
  }

  /** Rollback put the row into the next slot; recovery puts it into its old one as well. */
  lemma RolledBackTwice()
    ensures var p := PageState(0, [[], [7]], PAGE_SIZE - 1);
      PageAfter(RolledBackLog([7]), 0, p, 6).slots == [[7], [7]]
  {
    var log, p := RolledBackLog([7]), PageState(0, [[], [7]], PAGE_SIZE - 1);
    assert forall t :: 0 <= t < 6 && t != 4 ==> !Acts(log, t, 0);
    assert PageAfter(log, 0, p, 2) == PageAfter(log, 0, p, 1) == PageAfter(log, 0, p, 0);
    assert PageAfter(log, 0, p, 4) == PageAfter(log, 0, p, 3) == PageAfter(log, 0, p, 2);
    assert PageAfter(log, 0, p, 5) == PageAfter(log, 0, p, 6);
    PadTotal(p.slots, 1);
    assert Grown(p, 0).slots == p.slots;
    assert HasRoom(p, 0, [7]) by {
      TotalTwo([], [7]);
    }
    TotalTwo([], [7]);
    assert Stores(log, 4, 0, p);
  }

  lemma TotalTwo(a: Record, b: Record)
    ensures TotalLength([a, b]) == |a| + |b|
  {
    var s: seq<Record> := [a, b];
    assert s[..1][..0] == [] && s[..1] == [a];
    assert TotalLength(s[..1]) == TotalLength(s[..1][..0]) + |a|;
  }
}
