/** Whole runs of the version store: committed history is immutable down to the baseline, and
    how long a snapshot stays above it. */
module VersionRuns {
  import opened Values
  import opened VersionStore

  datatype Op =
    | Insert(tableId: int, rid: RecordID, bytes: Bytes)
    | Delete(tableId: int, rid: RecordID)
    | Commit
    | Discard
    | Collect(horizon: nat)
    | Retain(maxChanges: nat, retainVersions: nat)

  method Step(store: Store, op: Op)
    requires store.Valid()
    modifies store
    ensures store.Valid() && store.HistoryKept()
  {
    match op
    case Insert(t, rid, bytes) => store.StageInsert(t, rid, bytes);
    case Delete(t, rid) => store.StageDelete(t, rid);
    case Commit => var _ := store.CommitPending();
    case Discard => store.DiscardPending();
    case Collect(h) => store.Gc(h);
    case Retain(a, b) => store.SetRetention(a, b);
  }

  /** Whatever is staged, committed, discarded and collected: a committed version still at or
      above the baseline reads the same ever after, by time travel and in a transaction's
      snapshot. */
  method Run(store: Store, ops: seq<Op>)
    requires store.Valid()
    modifies store
    ensures store.Valid() && store.HistoryKept()
    ensures forall t: int, v: nat :: store.baselineVersion <= v <= old(store.version) ==> store.View(t, v) == old(store.View(t, v))
  {
    var i := 0;
    while i < |ops|
      invariant 0 <= i <= |ops| && store.Valid() && store.HistoryKept()
    {
      Step(store, ops[i]);
      i := i + 1;
    }
  }

  // ----- When a version stays readable

  /** A commit leaves a readable version readable exactly when it does not collect, or collects
      no further than the version. */
  lemma CommitKeepsIff(h: History, pending: seq<Change>, maxChanges: nat, retainVersions: nat, v: nat)
    requires h.baselineVersion <= v && pending != []
    ensures Committed(h, pending, maxChanges, retainVersions).baselineVersion <= v
      <==> |h.log| + |pending| <= maxChanges || h.version + 1 <= retainVersions || h.version + 1 - retainVersions <= v
  {
    hide Newer;
  }

  /** A collection leaves a readable version readable exactly when its horizon, or the newest
      version, is not above it. */
  lemma CollectKeepsIff(h: History, horizon: nat, v: nat)
    requires h.baselineVersion <= v
    ensures Collected(h, horizon).baselineVersion <= v <==> horizon <= v || h.version <= v
  {
    hide Newer;
  }

  function CommitAll(h: History, batches: seq<seq<Change>>, maxChanges: nat, retainVersions: nat): History {
    if batches == [] then h
    else Committed(CommitAll(h, batches[..|batches| - 1], maxChanges, retainVersions), batches[|batches| - 1], maxChanges, retainVersions)
  }

  ghost predicate NoneEmpty(batches: seq<seq<Change>>) {
    forall i :: 0 <= i < |batches| ==> batches[i] != []
  }

  lemma {:induction false} VersionsAdvance(h: History, batches: seq<seq<Change>>, maxChanges: nat, retainVersions: nat)
    ensures h.version <= CommitAll(h, batches, maxChanges, retainVersions).version <= h.version + |batches|
    ensures NoneEmpty(batches) ==> CommitAll(h, batches, maxChanges, retainVersions).version == h.version + |batches|
  {
    hide Newer, Stamped;
    if batches != [] {
      VersionsAdvance(h, batches[..|batches| - 1], maxChanges, retainVersions);
    }
  }

  /** As long as the newest version is within the retention of v, no commit passes v. */
  lemma {:induction false} WithinRetention(h: History, batches: seq<seq<Change>>, maxChanges: nat, retainVersions: nat, v: nat)
    requires h.baselineVersion <= v && h.version + |batches| <= v + retainVersions
    ensures CommitAll(h, batches, maxChanges, retainVersions).baselineVersion <= v
  {
    hide Committed;
    if batches != [] {
      var before := batches[..|batches| - 1];
      var h' := CommitAll(h, before, maxChanges, retainVersions);
      WithinRetention(h, before, maxChanges, retainVersions, v);
      VersionsAdvance(h, before, maxChanges, retainVersions);
      if batches[|batches| - 1] != [] {
        CommitKeepsIff(h', batches[|batches| - 1], maxChanges, retainVersions, v);
      } else {
        NothingCommitted(h', maxChanges, retainVersions);
      }
    }
  }

  lemma NothingCommitted(h: History, maxChanges: nat, retainVersions: nat)
    ensures Committed(h, [], maxChanges, retainVersions) == h
  {
  }

  /** Batches each too large for the log. */
  function Large(k: nat, maxChanges: nat): (batches: seq<seq<Change>>)
    ensures |batches| == k && forall i :: 0 <= i < k ==> |batches[i]| == maxChanges + 1
  {
    seq(k, _ => seq(maxChanges + 1, _ => Change(0, 0, true, RecordID(0, 0), "")))
  }

  ghost predicate Survives(h: History, batches: seq<seq<Change>>, maxChanges: nat, retainVersions: nat, v: nat) {
    CommitAll(h, batches, maxChanges, retainVersions).baselineVersion <= v
  }

  /** A readable version is sure to survive the next k commits, whatever they contain, exactly
      when it will still be within the retention of the newest version then. */
  lemma SurvivesCommitsIff(h: History, k: nat, maxChanges: nat, retainVersions: nat, v: nat)
    requires h.baselineVersion <= v && k > 0
    ensures (forall batches: seq<seq<Change>> :: |batches| == k ==> Survives(h, batches, maxChanges, retainVersions, v))
      <==> h.version + k <= v + retainVersions
  {
    hide Committed, CommitAll;
    if h.version + k <= v + retainVersions {
      forall batches: seq<seq<Change>> | |batches| == k
        ensures Survives(h, batches, maxChanges, retainVersions, v)
      {
        WithinRetention(h, batches, maxChanges, retainVersions, v);
      }
    } else {
      LargeOvertakes(h, k, maxChanges, retainVersions, v);
      assert !Survives(h, Large(k, maxChanges), maxChanges, retainVersions, v);
    }
  }

  lemma LargeOvertakes(h: History, k: nat, maxChanges: nat, retainVersions: nat, v: nat)
    requires k > 0 && h.version + k > v + retainVersions
    ensures CommitAll(h, Large(k, maxChanges), maxChanges, retainVersions).baselineVersion > v
  {
    hide Newer, Large;
    var batches := Large(k, maxChanges);
    VersionsAdvance(h, batches[..k - 1], maxChanges, retainVersions);
  }

  /** One transaction's changes, staged and committed. */
  method CommitBatch(store: Store, changes: seq<Change>)
    requires store.Valid() && store.pending == []
    modifies store
    ensures store.Valid() && store.pending == [] && store.HistoryKept()
    ensures store.maxChanges == old(store.maxChanges) && store.retainVersions == old(store.retainVersions)
    ensures store.Past() == Committed(old(store.Past()), Staged(changes), store.maxChanges, store.retainVersions)
    ensures forall t :: store.At(t, store.version) == Overlay(old(store.View(t, store.version)), Staged(changes), t)
  {
    hide Replay, RowsMap, Committed, Overlay;
    var i := 0;
    while i < |changes|
      invariant 0 <= i <= |changes| && store.Valid() && store.HistoryKept()
      invariant store.pending == Staged(changes)[..i] && store.Past() == old(store.Past())
      invariant store.maxChanges == old(store.maxChanges) && store.retainVersions == old(store.retainVersions)
      invariant forall t :: store.View(t, store.version) == old(store.View(t, store.version))
      modifies store`pending, store`knownTables
    {
      var c := changes[i];
      if c.isDelete {
        store.StageDelete(c.tableId, c.rid);
      } else {
        store.StageInsert(c.tableId, c.rid, c.bytes);
      }
      i := i + 1;
    }
    assert Staged(changes)[..i] == Staged(changes);
    var _ := store.CommitPending();
  }

  /** What staging makes of a change: no version yet, no bytes in a deletion. */
  function Staged(changes: seq<Change>): (out: seq<Change>)
    ensures |out| == |changes|
    ensures forall i :: 0 <= i < |out| ==> out[i] == changes[i].(version := 0, bytes := if changes[i].isDelete then "" else changes[i].bytes)
  {
    seq(|changes|, i requires 0 <= i < |changes| => changes[i].(version := 0, bytes := if changes[i].isDelete then "" else changes[i].bytes))
  }

  /** A transaction's snapshot reads the same after any commits that leave it within the
      retention of the newest version, whatever they change. */
  method SnapshotStable(store: Store, batches: seq<seq<Change>>, snapshot: nat)
    requires store.Valid() && store.pending == [] && store.baselineVersion <= snapshot <= store.version
    requires store.version + |batches| <= snapshot + store.retainVersions
    modifies store
    ensures store.Valid() && store.baselineVersion <= snapshot
    ensures forall t :: store.View(t, snapshot) == old(store.View(t, snapshot))
    ensures forall t, own :: Overlay(store.View(t, snapshot), own, t) == Overlay(old(store.View(t, snapshot)), own, t)
  {
    hide Replay, RowsMap, Overlay, Committed;
    var i := 0;
    while i < |batches|
      invariant 0 <= i <= |batches| && store.Valid() && store.pending == [] && store.HistoryKept()
      invariant store.retainVersions == old(store.retainVersions) && store.baselineVersion <= snapshot
      invariant store.version <= old(store.version) + i
    {
      ghost var h, changes := store.Past(), Staged(batches[i]);
      if batches[i] != [] {
        CommitKeepsIff(h, changes, store.maxChanges, store.retainVersions, snapshot);
      }
      OneVersion(h, changes, store.maxChanges, store.retainVersions);
      CommitBatch(store, batches[i]);
      i := i + 1;
    }
  }

  lemma OneVersion(h: History, pending: seq<Change>, maxChanges: nat, retainVersions: nat)
    ensures Committed(h, pending, maxChanges, retainVersions).version == h.version + if pending == [] then 0 else 1
    ensures pending == [] ==> Committed(h, pending, maxChanges, retainVersions) == h
  {
  }

  // ----- A snapshot the baseline overtakes

  lemma OneRow(rows: seq<BaseRow>, rid: RecordID, bytes: Bytes)
    requires RowsAre(rows, map[rid := bytes])
    ensures BytesOf(rows) == [bytes]
  {
    assert Has(rows, rid);
    assert forall i :: 0 <= i < |rows| ==> rows[i].rid == rid && rows[i].bytes == bytes;
    if |rows| > 1 {
      Apart(rows, map[rid := bytes], 0, 1);
    }
  }

  lemma Apart(rows: seq<BaseRow>, m: Table, i: nat, j: nat)
    requires RowsAre(rows, m) && i < j < |rows|
    ensures rows[i].rid != rows[j].rid
  {
  }

  method ReadOne(store: Store, snapshot: nat, ghost rid: RecordID, ghost bytes: Bytes) returns (out: seq<Bytes>)
    requires store.Valid() && store.pending == [] && store.View(1, snapshot) == map[rid := bytes]
    ensures out == [bytes]
  {
    hide Replay, RowsMap, RowsAre;
    NoOverlay(store.View(1, snapshot));
    out := store.SnapshotForTxn(1, snapshot);
    ghost var rows :| RowsAre(rows, map[rid := bytes]) && BytesOf(rows) == out;
    OneRow(rows, rid, bytes);
  }

  lemma NoOverlay(m: Table)
    ensures forall t :: Overlay(m, [], t) == m
  {
  }

  lemma Empty(store: Store)
    requires store.Valid() && store.log == [] && store.baseline == map[]
    ensures forall t, v :: store.At(t, v) == map[]
  {
  }

  /** The same row written n times. */
  function Writes(n: nat, rid: RecordID, bytes: Bytes): (changes: seq<Change>)
    ensures |changes| == n && forall i :: 0 <= i < n ==> changes[i] == Change(0, 1, false, rid, bytes)
  {
    seq(n, _ => Change(0, 1, false, rid, bytes))
  }

  lemma {:induction false} WritesOverlay(m: Table, n: nat, rid: RecordID, bytes: Bytes, changes: seq<Change>)
    requires |changes| == n && forall i :: 0 <= i < n ==> changes[i] == Change(0, 1, false, rid, bytes)
    ensures Overlay(m, changes, 1) == if n == 0 then m else m[rid := bytes]
  {
    if n > 0 {
      WritesOverlay(m, n - 1, rid, bytes, changes[..n - 1]);
    }
  }

  /** One transaction that writes the row n times. */
  method WriteRow(store: Store, n: nat, rid: RecordID, bytes: Bytes, ghost m: Table)
    requires store.Valid() && store.pending == [] && n > 0 && store.View(1, store.version) == m
    modifies store
    ensures store.Valid() && store.pending == [] && store.HistoryKept()
    ensures store.maxChanges == old(store.maxChanges) && store.retainVersions == old(store.retainVersions)
    ensures store.Past() == Committed(old(store.Past()), Writes(n, rid, bytes), store.maxChanges, store.retainVersions)
    ensures store.At(1, store.version) == m[rid := bytes] && store.version == old(store.version) + 1
  {
    hide Replay, RowsMap, Committed, Overlay;
    var changes := Writes(n, rid, bytes);
    assert Staged(changes) == changes;
    WritesOverlay(m, n, rid, bytes, changes);
    OneVersion(store.Past(), changes, store.maxChanges, store.retainVersions);
    CommitBatch(store, changes);
  }

  /** A history whose first change is the only one of version 1. */
  ghost predicate FirstAlone(h: History, versions: nat, n: nat) {
    && h.version == versions && |h.log| == n && n > 0 && h.log[0].version == 1
    && forall i :: 0 < i < |h.log| ==> h.log[i].version > 1
  }

  lemma {:induction false} NewerThanFirst(log: seq<Change>)
    requires log != [] && log[0].version == 1 && forall i :: 0 < i < |log| ==> log[i].version > 1
    ensures |Newer(log, 1)| == |log| - 1
  {
    if |log| > 1 {
      NewerThanFirst(log[..|log| - 1]);
    } else {
      assert log[..0] == [];
    }
  }

  lemma GrowsUncollected(h: History, n: nat, rid: RecordID, bytes: Bytes, versions: nat, size: nat)
    requires FirstAlone(h, versions, size) && 0 < versions && versions + 1 <= 200000 && n > 0
    ensures var next := Committed(h, Writes(n, rid, bytes), 2000000, 200000);
      FirstAlone(next, versions + 1, size + n) && next.baselineVersion == h.baselineVersion
  {
    var added := Stamped(Writes(n, rid, bytes), versions + 1);
    forall i | 0 < i < |h.log + added|
      ensures (h.log + added)[i].version > 1
    {
      if i >= |h.log| {
        assert added[i - |h.log|].version == versions + 1;
      }
    }
  }

  /** The first collection reaches version 1 and leaves a log still too long. */
  lemma FirstCollection(h: History, rid: RecordID, bytes: Bytes)
    requires FirstAlone(h, 200000, 1 + 11 * 199999) && h.baselineVersion == 0
    ensures var next := Committed(h, Writes(11, rid, bytes), 2000000, 200000);
      next.version == 200001 && next.baselineVersion == 1 && |next.log| == 11 * 200000
  {
    var log := h.log + Stamped(Writes(11, rid, bytes), 200001);
    forall i | 0 < i < |log|
      ensures log[i].version > 1
    {
      if i >= |h.log| {
        assert log[i] == Stamped(Writes(11, rid, bytes), 200001)[i - |h.log|];
      }
    }
    NewerThanFirst(log);
  }

  lemma SecondCollection(h: History, rid: RecordID, bytes: Bytes)
    requires h.version == 200001 && h.baselineVersion == 1 && |h.log| == 11 * 200000
    ensures Committed(h, Writes(11, rid, bytes), 2000000, 200000).baselineVersion == 2
  {
    hide Newer;
  }

  /** As many commits as fit before the first collection. */
  method WriteUncollected(store: Store, rid: RecordID)
    requires store.Valid() && store.pending == [] && store.maxChanges == 2000000 && store.retainVersions == 200000
    requires FirstAlone(store.Past(), 1, 1) && store.baselineVersion == 0 && store.version == 1
    requires store.View(1, 1) == map[rid := "a"]
    modifies store
    ensures store.Valid() && store.pending == [] && store.maxChanges == 2000000 && store.retainVersions == 200000
    ensures FirstAlone(store.Past(), 200000, 1 + 11 * 199999) && store.baselineVersion == 0 && store.version == 200000
    ensures store.At(1, store.version) == map[rid := "b"] && store.At(1, 2) == map[rid := "b"]
  {
    hide RowsMap, Replay, Committed, Writes, FirstAlone;
    GrowsUncollected(store.Past(), 11, rid, "b", 1, 1);
    WriteRow(store, 11, rid, "b", map[rid := "a"]);
    var commits := 1;
    while commits < 199999
      invariant 1 <= commits <= 199999 && store.Valid() && store.pending == []
      invariant store.maxChanges == 2000000 && store.retainVersions == 200000
      invariant FirstAlone(store.Past(), commits + 1, 1 + 11 * commits) && store.baselineVersion == 0 && store.version == commits + 1
      invariant store.At(1, store.version) == map[rid := "b"] && store.At(1, 2) == map[rid := "b"]
    {
      GrowsUncollected(store.Past(), 11, rid, "b", commits + 1, 1 + 11 * commits);
      WriteRow(store, 11, rid, "b", map[rid := "b"]);
      commits := commits + 1;
    }
  }

  /** Garbage collection does not look at running transactions: with the retention every store
      starts with, 200001 commits of eleven changes each move the baseline past version 1, and
      whoever still reads at version 1 sees another row. */
  method Overtake(store: Store, rid: RecordID)
    requires store.Valid() && store.pending == [] && store.maxChanges == 2000000 && store.retainVersions == 200000
    requires FirstAlone(store.Past(), 1, 1) && store.baselineVersion == 0 && store.version == 1
    requires store.View(1, 1) == map[rid := "a"]
    modifies store
    ensures store.Valid() && store.pending == [] && store.version == 200002 && store.baselineVersion == 2
    ensures store.View(1, 1) == map[rid := "b"]
  {
    hide RowsMap, Replay, Committed, Writes, FirstAlone;
    WriteUncollected(store, rid);
    FirstCollection(store.Past(), rid, "b");
    WriteRow(store, 11, rid, "b", map[rid := "b"]);
    SecondCollection(store.Past(), rid, "b");
    WriteRow(store, 11, rid, "b", map[rid := "b"]);
  }

  /** The same from a new store, as a transaction's two reads. */
  method SnapshotOvertaken() returns (before: seq<Bytes>, after: seq<Bytes>)
    ensures before == ["a"] && after == ["b"]
  {
    hide RowsMap, Replay, Committed, Writes, FirstAlone;
    var store := new Store();
    var rid := RecordID(0, 0);
    Empty(store);
    FirstCommit(rid);
    WriteRow(store, 1, rid, "a", map[]);
    store.BeginSnapshot(7);
    var snapshot := store.version;
    before := ReadOne(store, snapshot, rid, "a");
    Overtake(store, rid);
    after := ReadOne(store, snapshot, rid, "b");
  }

  lemma FirstCommit(rid: RecordID)
    ensures var next := Committed(History([], 0, 0), Writes(1, rid, "a"), 2000000, 200000);
      FirstAlone(next, 1, 1) && next.baselineVersion == 0
  {
  }

  // ----- Deleting a row

  /** A deletion that is committed takes the row away, from the table and from the rows read, for
      whatever the transaction had done to the row before. */
  method DeleteRow(store: Store, t: int, rid: RecordID) returns (v: nat, rows: seq<BaseRow>)
    requires store.Valid()
    modifies store
    ensures store.Valid() && store.pending == [] && v == store.version == old(store.version) + 1
    ensures rid !in store.At(t, v) && forall i :: 0 <= i < |rows| ==> rows[i].rid != rid
  {
    hide Replay, Overlay, LastInserts, NoChange;
    store.StageDelete(t, rid);
    DeletedLast(store.pending, t, rid);
    forall bytes ensures !Holds(store.TxnView(t, store.version), rid, bytes) {
      store.RowInTxn(t, store.version, rid, bytes);
    }
    assert rid in store.TxnView(t, store.version) ==> Holds(store.TxnView(t, store.version), rid, store.TxnView(t, store.version)[rid]);
    v := store.CommitPending();
    rows := store.Reconstruct(t, v);
  }

  lemma DeletedLast(pending: seq<Change>, t: int, rid: RecordID)
    requires pending != [] && pending[|pending| - 1] == Change(0, t, true, rid, "")
    ensures !NothingPendingOn(pending, t, rid) && forall bytes :: !PendingInserts(pending, t, rid, bytes)
  {
    forall i | LastPending(pending, t, rid, i) ensures i == |pending| - 1 {
    }
  }
}
