/** Recoveries that are interrupted and started again: what a crash during recovery leaves is
    itself a disk to recover, and the last recovery ends where an undisturbed one would. */
module RecoveryRuns {
  import opened Values
  import opened PageLayout
  import opened SlottedPage
  import opened Recovery

  /** A recovery of the first disk was interrupted: each page of the second is that page as of
      some step, each page of another step perhaps. */
  ghost predicate Interrupted(log: Log, d: Disk, e: Disk) {
    forall pid :: exists n :: 0 <= n <= 2 * |log| && Fetch(e, pid) == PageAfter(log, pid, Fetch(d, pid), n)
  }

  /** Wherever recovery stops, a row can be recovered from there. */
  lemma RestartRow(log: Log, base: Contents, p: PageState, rid: RecordID, n: nat)
    requires LogOk(log, base) && RowOk(log, base, p, rid) && Sound(p) && Growable(log, rid.page, p) && RowFits(log, p, rid)
    requires n <= 2 * |log|
    ensures RowOk(log, base, PageAfter(log, rid.page, p, n), rid)
  {
    hide LogOk, Target, SlotValue, Sound, Growable, RoomForStep, ActsOn, PageAfter;
    var q := PageAfter(log, rid.page, p, n);
    var t := LastStep(log, rid, 2 * |log|);
    if t == -1 {
      UntouchedTarget(log, base, rid);
      RowKept(log, p, rid, 0, n);
      NoSteps(log, rid.page, p);
    } else {
      assert DecidedBy(log, t, rid);
      DecidingValue(log, base, t, rid);
      if t < |log| && q.lsn >= log[t].lsn {
        if log[t].lsn <= p.lsn {
          DecidedBefore(log, base, p, rid, t, n);
        } else {
          RunLsn(log, rid.page, p, n);
          var j :| 0 <= j < n && j < |log| && q.lsn == log[j].lsn;
          LsnOrder(log, base, t, j);
          DecidedNow(log, base, p, rid, t, n);
        }
      } else if t < |log| {
        StepIsWinner(log, t, rid);
      }
    }
  }

  lemma LsnOrder(log: Log, base: Contents, i: nat, j: nat)
    requires LogOk(log, base) && i < |log| && j < |log| && log[i].lsn <= log[j].lsn
    ensures i <= j
  {
    hide RecordOk, LockOrder;
  }

  lemma StepIsWinner(log: Log, t: nat, rid: RecordID)
    requires t < |log| && ActsOn(log, t, rid)
    ensures On(log[t], rid) && Wins(log, log[t])
  {
  }

  /** What an interrupted recovery leaves can be recovered, to the same target. */
  lemma RestartAnywhere(log: Log, base: Contents, d: Disk, e: Disk)
    requires LogOk(log, base) && Recoverable(log, base, d) && SoundDisk(d) && GrowableDisk(log, d) && DiskFits(log, d)
    requires Interrupted(log, d, e)
    ensures Recoverable(log, base, e) && SoundDisk(e)
  {
    hide LogOk, RowOk, Sound, Growable, RowFits, PageAfter, Fetch;
    forall pid ensures Sound(Fetch(e, pid)) {
      var n :| 0 <= n <= 2 * |log| && Fetch(e, pid) == PageAfter(log, pid, Fetch(d, pid), n);
      assert Sound(Fetch(d, pid)) && Growable(log, pid, Fetch(d, pid));
      RunSound(log, pid, Fetch(d, pid), n);
    }
    forall rid: RecordID ensures RowOk(log, base, Fetch(e, rid.page), rid) {
      var p := Fetch(d, rid.page);
      var n :| 0 <= n <= 2 * |log| && Fetch(e, rid.page) == PageAfter(log, rid.page, p, n);
      assert Sound(p) && Growable(log, rid.page, p) && RowOk(log, base, p, rid) && RowFits(log, p, rid);
      RestartRow(log, base, p, rid, n);
    }
  }

  // ----- An interruption of the forward pass leaves no trace

  /** The page has record j's change, or there is no room for it. */
  ghost predicate Settled(log: Log, j: nat, pid: int, p: PageState)
    requires j < |log|
  {
    Acts(log, j, pid) ==>
      || Skips(p, log[j].lsn)
      || (log[j].kind.Insert? && 0 <= log[j].rid.slot < |p.slots| && !Holds(p, log[j].rid.slot, log[j].after) && !HasRoom(p, log[j].rid.slot, log[j].after))
  }

  /** The step itself settles its record. */
  lemma StepSettles(log: Log, base: Contents, j: nat, pid: int, p: PageState)
    requires LogOk(log, base) && j < |log| && Sound(p)
    ensures Settled(log, j, pid, PageStep(log, j, pid, p))
  {
    hide LogOk, TotalLength, Wins;
    if Acts(log, j, pid) {
      RecordFields(log, base, j);
      var slot := log[j].rid.slot;
      PadTotal(p.slots, slot + 1);
    }
  }

  /** Later steps of the forward pass keep it settled. */
  lemma StaysSettled(log: Log, base: Contents, i: nat, j: nat, pid: int, p: PageState)
    requires LogOk(log, base) && i < j < |log| && Sound(p) && Settled(log, i, pid, p)
    ensures Settled(log, i, pid, PageStep(log, j, pid, p))
  {
    hide RecordOk, LockOrder, TotalLength, Wins;
    RecordFields(log, base, j);
    RecordFields(log, base, i);
    if Acts(log, i, pid) && Acts(log, j, pid) {
      PadTotal(p.slots, log[j].rid.slot + 1);
      PadTotal(p.slots, log[i].rid.slot + 1);
      var q := Grown(p, log[j].rid.slot);
      PadTotal(q.slots, log[i].rid.slot + 1);
    }
  }

  /** A settled record's step changes nothing. */
  lemma SettledStep(log: Log, base: Contents, j: nat, pid: int, p: PageState)
    requires LogOk(log, base) && j < |log| && Sound(p) && Settled(log, j, pid, p)
    ensures PageStep(log, j, pid, p) == p
  {
    hide LogOk, TotalLength, Wins, HasRoom;
    if Acts(log, j, pid) && !Skips(p, log[j].lsn) {
      RecordFields(log, base, j);
      assert Pad(p.slots, log[j].rid.slot + 1) == p.slots;
    }
  }

  lemma {:induction false} AllSettled(log: Log, base: Contents, pid: int, p: PageState, n: nat, j: nat)
    requires LogOk(log, base) && Sound(p) && Growable(log, pid, p) && j < n <= |log|
    ensures Settled(log, j, pid, PageAfter(log, pid, p, n))
    decreases n
  {
    hide LogOk, Sound, Growable, Settled, PageStep;
    RunSound(log, pid, p, n - 1);
    if j == n - 1 {
      StepSettles(log, base, j, pid, PageAfter(log, pid, p, n - 1));
    } else {
      AllSettled(log, base, pid, p, n - 1, j);
      StaysSettled(log, base, j, n - 1, pid, PageAfter(log, pid, p, n - 1));
    }
  }

  /** Stop the forward pass after n steps and start again: the page goes on where it stopped. */
  lemma {:induction false} RedoResumes(log: Log, base: Contents, pid: int, p: PageState, n: nat, m: nat)
    requires LogOk(log, base) && Sound(p) && Growable(log, pid, p) && n <= |log| && m <= 2 * |log|
    ensures PageAfter(log, pid, PageAfter(log, pid, p, n), m) == PageAfter(log, pid, p, if m <= n then n else m)
    decreases m
  {
    hide LogOk, Sound, Growable, PageStep;
    var q := PageAfter(log, pid, p, n);
    if m > 0 {
      RedoResumes(log, base, pid, p, n, m - 1);
      if m <= n {
        RunSound(log, pid, p, n);
        AllSettled(log, base, pid, p, n, m - 1);
        SettledStep(log, base, m - 1, pid, q);
      }
    }
  }

  lemma {:induction false} LsnRises(log: Log, pid: int, p: PageState, m: nat, n: nat)
    requires m <= n <= 2 * |log|
    ensures PageAfter(log, pid, p, m).lsn <= PageAfter(log, pid, p, n).lsn
    decreases n
  {
    hide PageStep;
    if m < n {
      LsnRises(log, pid, p, m, n - 1);
      StepRaises(log, n - 1, pid, PageAfter(log, pid, p, n - 1));
    }
  }

  lemma SettledGrows(log: Log, base: Contents, j: nat, pid: int, p: PageState)
    requires LogOk(log, base) && j < |log| && Settled(log, j, pid, p)
    ensures GrowsFreely(log, j, pid, p)
  {
    hide LogOk, Wins, HasRoom;
    RecordFields(log, base, j);
  }

  /** A page interrupted in the forward pass needs no more room than it did from the start. */
  lemma ForwardGrowable(log: Log, base: Contents, pid: int, p: PageState, n: nat)
    requires LogOk(log, base) && Sound(p) && Growable(log, pid, p) && n <= |log|
    ensures Growable(log, pid, PageAfter(log, pid, p, n))
  {
    hide LogOk, Sound, PageStep, PageAfter, GrowsFreely, Settled;
    var q := PageAfter(log, pid, p, n);
    forall t | 0 <= t < 2 * |log| ensures GrowsFreely(log, t, pid, PageAfter(log, pid, q, t)) {
      RedoResumes(log, base, pid, p, n, t);
      if t < n {
        AllSettled(log, base, pid, p, n, t);
        SettledGrows(log, base, t, pid, q);
      } else {
        assert GrowsFreely(log, t, pid, PageAfter(log, pid, p, t));
      }
    }
  }

  lemma ForwardFits(log: Log, base: Contents, p: PageState, rid: RecordID, n: nat)
    requires LogOk(log, base) && Sound(p) && Growable(log, rid.page, p) && n <= |log| && RowFits(log, p, rid)
    ensures RowFits(log, PageAfter(log, rid.page, p, n), rid)
  {
    hide LogOk, Sound, Growable, PageStep, PageAfter, RoomForStep, ActsOn, StepValue;
    var q := PageAfter(log, rid.page, p, n);
    forall t: nat | DecidedBy(log, t, rid) ensures RoomForStep(log, t, rid.page, PageAfter(log, rid.page, q, t)) {
      RedoResumes(log, base, rid.page, p, n, t);
      if t < n {
        StepFields(log, base, t, rid);
        RunSound(log, rid.page, p, t);
        var r := PageAfter(log, rid.page, p, t);
        StepHere(log, t, r, rid);
        LsnRises(log, rid.page, p, t + 1, n);
        LsnRises(log, rid.page, p, t, n);
        UnfoldRun(log, rid.page, p, t);
        assert q.lsn >= log[t].lsn;
        NewerHasRoom(log, t, rid.page, q);
      }
    }
  }

  lemma UnfoldRun(log: Log, pid: int, p: PageState, t: nat)
    requires t < 2 * |log|
    ensures PageAfter(log, pid, p, t + 1) == PageStep(log, t, pid, PageAfter(log, pid, p, t))
  {
  }

  // ----- Any number of interruptions

  /** Disks of successive crashes: each was left by a recovery of the one before. */
  ghost predicate CrashChain(log: Log, disks: seq<Disk>) {
    forall i :: 0 <= i < |disks| - 1 ==> Interrupted(log, disks[i], disks[i + 1])
  }

  /** A recovery of this disk never lacks space where it matters. */
  ghost predicate Roomy(log: Log, disk: Disk) {
    GrowableDisk(log, disk) && DiskFits(log, disk)
  }

  /** If every page was interrupted in the forward pass, starting again needs no more room. */
  lemma ForwardRoomy(log: Log, base: Contents, d: Disk, e: Disk)
    requires LogOk(log, base) && SoundDisk(d) && Roomy(log, d)
    requires forall pid :: exists n :: 0 <= n <= |log| && Fetch(e, pid) == PageAfter(log, pid, Fetch(d, pid), n)
    ensures Roomy(log, e)
  {
    hide LogOk, Sound, Growable, RowFits, PageAfter, Fetch;
    forall pid ensures Growable(log, pid, Fetch(e, pid)) {
      var n :| 0 <= n <= |log| && Fetch(e, pid) == PageAfter(log, pid, Fetch(d, pid), n);
      assert Sound(Fetch(d, pid)) && Growable(log, pid, Fetch(d, pid));
      ForwardGrowable(log, base, pid, Fetch(d, pid), n);
    }
    forall rid: RecordID ensures RowFits(log, Fetch(e, rid.page), rid) {
      var p := Fetch(d, rid.page);
      var n :| 0 <= n <= |log| && Fetch(e, rid.page) == PageAfter(log, rid.page, p, n);
      assert Sound(p) && Growable(log, rid.page, p) && RowFits(log, p, rid);
      ForwardFits(log, base, p, rid, n);
    }
  }

  lemma {:induction false} ChainRecoverable(log: Log, base: Contents, disks: seq<Disk>, i: nat)
    requires LogOk(log, base) && i < |disks| && CrashChain(log, disks) && CrashDisk(log, base, disks[0]) && SoundDisk(disks[0])
    requires forall j :: 0 <= j < i ==> Roomy(log, disks[j])
    ensures Recoverable(log, base, disks[i]) && SoundDisk(disks[i])
  {
    hide LogOk, CrashDisk, SoundDisk, Recoverable, GrowableDisk, DiskFits, Interrupted;
    if i == 0 {
      CrashIsRecoverable(log, base, disks[0]);
    } else {
      ChainRecoverable(log, base, disks, i - 1);
      assert Roomy(log, disks[i - 1]) && Interrupted(log, disks[i - 1], disks[i - 1 + 1]);
      RestartAnywhere(log, base, disks[i - 1], disks[i]);
    }
  }

  /** After a crash and any number of interrupted recoveries, the recovery that is left alone
      leaves exactly the state of the committed transactions. */
  method RecoverAtLast(log: Log, disks: seq<Disk>, lists: map<int, seq<int>>, ghost base: Contents) returns (tables: TableManager)
    requires LogOk(log, base) && disks != [] && CrashChain(log, disks) && CrashDisk(log, base, disks[0]) && SoundDisk(disks[0])
    requires forall j :: 0 <= j < |disks| ==> Roomy(log, disks[j])
    ensures forall rid :: Stored(tables.disk, rid) == Target(log, base, rid)
  {
    hide LogOk, CrashDisk, SoundDisk, Recoverable, CrashChain, GrowableDisk, RowFits, Stored, Target, DiskAfter, Listed;
    var n := |disks| - 1;
    ChainRecoverable(log, base, disks, n);
    assert Roomy(log, disks[n]);
    tables := new TableManager(disks[n], lists);
    tables.Recover(log, base);
  }
}
