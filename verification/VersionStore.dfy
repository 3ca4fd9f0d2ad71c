/** The multiversion store: committed changes by version, a compacted baseline, snapshots for
    transactions and time travel, and garbage collection. */
module VersionStore {
  import opened Values

  type Bytes = string

  datatype Change = Change(version: nat, tableId: int, isDelete: bool, rid: RecordID, bytes: Bytes)

  datatype BaseRow = BaseRow(rid: RecordID, bytes: Bytes)

  /** A table at one version. */
  type Table = map<RecordID, Bytes>

  function Apply(m: Table, c: Change): Table {
    if c.isDelete then m - {c.rid} else m[c.rid := c.bytes]
  }

  /** The changes a reader of the table at a version takes into account. */
  predicate Visible(c: Change, tableId: int, above: nat, upTo: nat) {
    c.tableId == tableId && above < c.version <= upTo
  }

  /** The table after the log's visible changes, in order. */
  function Replay(m: Table, log: seq<Change>, tableId: int, above: nat, upTo: nat): Table {
    if log == [] then m
    else
      var before := Replay(m, log[..|log| - 1], tableId, above, upTo);
      if Visible(log[|log| - 1], tableId, above, upTo) then Apply(before, log[|log| - 1]) else before
  }

  /** The table with a transaction's own uncommitted changes on top. */
  function Overlay(m: Table, pending: seq<Change>, tableId: int): Table {
    if pending == [] then m
    else
      var before := Overlay(m, pending[..|pending| - 1], tableId);
      if pending[|pending| - 1].tableId == tableId then Apply(before, pending[|pending| - 1]) else before
  }

  // ----- Rows and the map they stand for

  /** The rows are exactly the table's entries, each once. */
  ghost predicate RowsAre(rows: seq<BaseRow>, m: Table) {
    && (forall i, j :: 0 <= i < j < |rows| ==> rows[i].rid != rows[j].rid)
    && (forall i :: 0 <= i < |rows| ==> rows[i].rid in m && m[rows[i].rid] == rows[i].bytes)
    && (forall rid :: rid in m ==> Has(rows, rid))
  }

  ghost predicate Has(rows: seq<BaseRow>, rid: RecordID) {
    exists i :: 0 <= i < |rows| && rows[i].rid == rid
  }

  ghost predicate Distinct(rows: seq<BaseRow>) {
    forall i, j :: 0 <= i < j < |rows| ==> rows[i].rid != rows[j].rid
  }

  function RowsMap(rows: seq<BaseRow>): Table {
    if rows == [] then map[] else RowsMap(rows[..|rows| - 1])[rows[|rows| - 1].rid := rows[|rows| - 1].bytes]
  }

  lemma {:induction false} RowsMapAre(rows: seq<BaseRow>)
    requires Distinct(rows)
    ensures RowsAre(rows, RowsMap(rows))
  {
    if rows != [] {
      var init, last := rows[..|rows| - 1], rows[|rows| - 1];
      RowsMapAre(init);
      forall rid | rid in RowsMap(rows) ensures Has(rows, rid) {
        if rid == last.rid {
          assert rows[|init|].rid == rid;
        } else {
          assert Has(init, rid);
          var i :| 0 <= i < |init| && init[i].rid == rid;
          assert rows[i].rid == rid;
        }
      }
    }
  }

  lemma RowsHold(rows: seq<BaseRow>, m: Table, rid: RecordID, bytes: Bytes)
    requires RowsAre(rows, m)
    ensures rid in m && m[rid] == bytes <==> BaseRow(rid, bytes) in rows
  {
    if rid in m {
      assert Has(rows, rid);
    }
  }

  lemma RowsAreUnique(rows: seq<BaseRow>, m: Table)
    requires RowsAre(rows, m)
    ensures Distinct(rows) && RowsMap(rows) == m
  {
    RowsMapAre(rows);
    var n := RowsMap(rows);
    forall rid ensures rid in n <==> rid in m {
      if rid in n {
        assert Has(rows, rid);
      }
      if rid in m {
        assert Has(rows, rid);
      }
    }
    forall rid | rid in m ensures n[rid] == m[rid] {
      assert Has(rows, rid);
    }
  }

  // ----- The working state of a reconstruction

  /** Rows in order of appearance, which of them are live, and where each record is. */
  datatype Work = Work(rows: seq<BaseRow>, live: seq<bool>, pos: map<RecordID, nat>)

  ghost predicate Represents(w: Work, m: Table) {
    && |w.live| == |w.rows|
    && (forall rid :: rid in w.pos ==> w.pos[rid] < |w.rows| && w.rows[w.pos[rid]].rid == rid)
    && (forall i :: 0 <= i < |w.rows| ==> w.rows[i].rid in w.pos && w.pos[w.rows[i].rid] == i)
    && (forall rid :: rid in m <==> rid in w.pos && w.live[w.pos[rid]])
    && (forall rid :: rid in m ==> m[rid] == w.rows[w.pos[rid]].bytes)
  }

  method StartFrom(base: seq<BaseRow>) returns (w: Work)
    requires Distinct(base)
    ensures Represents(w, RowsMap(base))
  {
    hide Represents;
    w := Work([], [], map[]);
    NoWork();
    var i := 0;
    while i < |base|
      invariant 0 <= i <= |base| && w.rows == base[..i] && Represents(w, RowsMap(base[..i]))
    {
      assert base[..i + 1][..i] == base[..i];
      NotYetThere(w, RowsMap(base[..i]), base, i);
      w := AppendRow(w, base[i], RowsMap(base[..i]));
      i := i + 1;
    }
    assert base[..|base|] == base;
  }

  lemma NoWork()
    ensures Represents(Work([], [], map[]), map[])
  {
  }

  lemma NotYetThere(w: Work, m: Table, base: seq<BaseRow>, i: nat)
    requires Distinct(base) && i < |base| && w.rows == base[..i] && Represents(w, m)
    ensures base[i].rid !in w.pos
  {
    assert forall j :: 0 <= j < |w.rows| ==> w.rows[j].rid == base[j].rid != base[i].rid;
  }

  method AppendRow(w: Work, row: BaseRow, ghost m: Table) returns (out: Work)
    requires Represents(w, m) && row.rid !in w.pos
    ensures Represents(out, m[row.rid := row.bytes]) && out.rows == w.rows + [row]
  {
    out := Work(w.rows + [row], w.live + [true], w.pos[row.rid := |w.rows|]);
  }

  /** Applies one change: deletes by marking, overwrites in place, appends what is new. */
  method ApplyChange(w: Work, c: Change, ghost m: Table) returns (out: Work)
    requires Represents(w, m)
    ensures Represents(out, Apply(m, c))
  {
    if c.isDelete {
      out := w;
      if c.rid in w.pos {
        out := w.(live := w.live[w.pos[c.rid] := false]);
      }
    } else if c.rid in w.pos {
      var i := w.pos[c.rid];
      out := w.(rows := w.rows[i := BaseRow(c.rid, c.bytes)], live := w.live[i := true]);
    } else {
      out := AppendRow(w, BaseRow(c.rid, c.bytes), m);
    }
  }

  /** The live rows, in order. */
  method LiveRows(w: Work, ghost m: Table) returns (out: seq<BaseRow>)
    requires Represents(w, m)
    ensures RowsAre(out, m)
  {
    out := [];
    ghost var from: seq<nat> := [];
    var i := 0;
    while i < |w.rows|
      invariant 0 <= i <= |w.rows| && |from| == |out|
      invariant forall x :: 0 <= x < |from| ==> from[x] < i && w.live[from[x]] && out[x] == w.rows[from[x]]
      invariant forall x, y :: 0 <= x < y < |from| ==> from[x] < from[y]
      invariant forall k :: 0 <= k < i && w.live[k] ==> k in from
    {
      if w.live[i] {
        out := out + [w.rows[i]];
        from := from + [i];
      }
      i := i + 1;
    }
    LiveRowsAre(w, m, out, from);
  }

  lemma LiveRowsAre(w: Work, m: Table, out: seq<BaseRow>, from: seq<nat>)
    requires Represents(w, m) && |from| == |out|
    requires forall x :: 0 <= x < |from| ==> from[x] < |w.rows| && w.live[from[x]] && out[x] == w.rows[from[x]]
    requires forall x, y :: 0 <= x < y < |from| ==> from[x] < from[y]
    requires forall k :: 0 <= k < |w.rows| && w.live[k] ==> k in from
    ensures RowsAre(out, m)
  {
    forall x, y | 0 <= x < y < |out| ensures out[x].rid != out[y].rid {
      assert w.pos[w.rows[from[x]].rid] == from[x] && w.pos[w.rows[from[y]].rid] == from[y];
    }
    forall rid | rid in m ensures Has(out, rid) {
      assert w.pos[rid] in from;
      var x :| 0 <= x < |from| && from[x] == w.pos[rid];
      assert out[x].rid == rid;
    }
    forall x | 0 <= x < |out| ensures out[x].rid in m && m[out[x].rid] == out[x].bytes {
      assert w.pos[w.rows[from[x]].rid] == from[x];
    }
  }

  function BytesOf(rows: seq<BaseRow>): (out: seq<Bytes>)
    ensures |out| == |rows| && forall i :: 0 <= i < |rows| ==> out[i] == rows[i].bytes
  {
    seq(|rows|, i requires 0 <= i < |rows| => rows[i].bytes)
  }

  /** The bytes of a table's rows, each row once. */
  ghost predicate ReadsAs(out: seq<Bytes>, m: Table) {
    exists rows :: RowsAre(rows, m) && BytesOf(rows) == out
  }

  // ----- What replaying and overlaying mean, row by row

  /** Change i is the last one of the row that a reader at a version takes into account. */
  ghost predicate LastChange(log: seq<Change>, t: int, rid: RecordID, above: nat, upTo: nat, i: int) {
    && 0 <= i < |log| && log[i].tableId == t && log[i].rid == rid && above < log[i].version <= upTo
    && forall j :: i < j < |log| && log[j].tableId == t && log[j].rid == rid ==> !(above < log[j].version <= upTo)
  }

  /** The row's last change is an insertion of these bytes. */
  ghost predicate LastInserts(log: seq<Change>, t: int, rid: RecordID, above: nat, upTo: nat, bytes: Bytes) {
    exists i :: LastChange(log, t, rid, above, upTo, i) && !log[i].isDelete && log[i].bytes == bytes
  }

  ghost predicate NoChange(log: seq<Change>, t: int, rid: RecordID, above: nat, upTo: nat) {
    forall i :: 0 <= i < |log| && log[i].tableId == t && log[i].rid == rid ==> !(above < log[i].version <= upTo)
  }

  ghost predicate Holds(m: Table, rid: RecordID, bytes: Bytes) {
    rid in m && m[rid] == bytes
  }

  /** A row is there after a replay exactly if its last change inserted it, or nothing changed it
      and it was there before: a deletion takes it away. */
  lemma {:induction false} ReplayHolds(m: Table, log: seq<Change>, t: int, above: nat, upTo: nat, rid: RecordID, bytes: Bytes)
    ensures Holds(Replay(m, log, t, above, upTo), rid, bytes)
      <==> LastInserts(log, t, rid, above, upTo, bytes) || (NoChange(log, t, rid, above, upTo) && Holds(m, rid, bytes))
  {
    hide LastInserts, NoChange;
    if log == [] {
      NothingLogged(t, rid, above, upTo, bytes);
    } else {
      var n := |log| - 1;
      ReplayHolds(m, log[..n], t, above, upTo, rid, bytes);
      LastOrEarlier(log, t, rid, above, upTo, bytes);
    }
  }

  lemma NothingLogged(t: int, rid: RecordID, above: nat, upTo: nat, bytes: Bytes)
    ensures !LastInserts([], t, rid, above, upTo, bytes) && NoChange([], t, rid, above, upTo)
  {
  }

  /** The last change of the log is the row's last one, or the row's last one is earlier. */
  lemma LastOrEarlier(log: seq<Change>, t: int, rid: RecordID, above: nat, upTo: nat, bytes: Bytes)
    requires log != []
    ensures var init, last := log[..|log| - 1], log[|log| - 1];
      if last.tableId == t && last.rid == rid && above < last.version <= upTo
      then !NoChange(log, t, rid, above, upTo) && (LastInserts(log, t, rid, above, upTo, bytes) <==> !last.isDelete && last.bytes == bytes)
      else && (LastInserts(log, t, rid, above, upTo, bytes) <==> LastInserts(init, t, rid, above, upTo, bytes))
           && (NoChange(log, t, rid, above, upTo) <==> NoChange(init, t, rid, above, upTo))
  {
    var n := |log| - 1;
    var init, last := log[..n], log[n];
    if last.tableId == t && last.rid == rid && above < last.version <= upTo {
      assert LastChange(log, t, rid, above, upTo, n);
      assert forall i :: LastChange(log, t, rid, above, upTo, i) ==> i == n;
    } else {
      forall i ensures LastChange(log, t, rid, above, upTo, i) <==> LastChange(init, t, rid, above, upTo, i) {
      }
      assert forall i :: 0 <= i < n ==> log[i] == init[i];
    }
  }

  /** Change i is a transaction's last change of the row. */
  ghost predicate LastPending(pending: seq<Change>, t: int, rid: RecordID, i: int) {
    && 0 <= i < |pending| && pending[i].tableId == t && pending[i].rid == rid
    && forall j :: i < j < |pending| && pending[j].tableId == t ==> pending[j].rid != rid
  }

  ghost predicate PendingInserts(pending: seq<Change>, t: int, rid: RecordID, bytes: Bytes) {
    exists i :: LastPending(pending, t, rid, i) && !pending[i].isDelete && pending[i].bytes == bytes
  }

  ghost predicate NothingPendingOn(pending: seq<Change>, t: int, rid: RecordID) {
    forall i :: 0 <= i < |pending| && pending[i].tableId == t ==> pending[i].rid != rid
  }

  /** The same for uncommitted changes on top of a table. */
  lemma {:induction false} OverlayHolds(m: Table, pending: seq<Change>, t: int, rid: RecordID, bytes: Bytes)
    ensures Holds(Overlay(m, pending, t), rid, bytes)
      <==> PendingInserts(pending, t, rid, bytes) || (NothingPendingOn(pending, t, rid) && Holds(m, rid, bytes))
  {
    hide PendingInserts, NothingPendingOn;
    if pending == [] {
      NothingStaged(t, rid, bytes);
    } else {
      OverlayHolds(m, pending[..|pending| - 1], t, rid, bytes);
      LastOrEarlierPending(pending, t, rid, bytes);
    }
  }

  lemma NothingStaged(t: int, rid: RecordID, bytes: Bytes)
    ensures !PendingInserts([], t, rid, bytes) && NothingPendingOn([], t, rid)
  {
  }

  lemma LastOrEarlierPending(pending: seq<Change>, t: int, rid: RecordID, bytes: Bytes)
    requires pending != []
    ensures var init, last := pending[..|pending| - 1], pending[|pending| - 1];
      if last.tableId == t && last.rid == rid
      then !NothingPendingOn(pending, t, rid) && (PendingInserts(pending, t, rid, bytes) <==> !last.isDelete && last.bytes == bytes)
      else && (PendingInserts(pending, t, rid, bytes) <==> PendingInserts(init, t, rid, bytes))
           && (NothingPendingOn(pending, t, rid) <==> NothingPendingOn(init, t, rid))
  {
    var n := |pending| - 1;
    var init, last := pending[..n], pending[n];
    if last.tableId == t && last.rid == rid {
      assert LastPending(pending, t, rid, n);
      assert forall i :: LastPending(pending, t, rid, i) ==> i == n;
    } else {
      forall i ensures LastPending(pending, t, rid, i) <==> LastPending(init, t, rid, i) {
      }
      assert forall i :: 0 <= i < n ==> pending[i] == init[i];
    }
  }

  // ----- Facts about replaying

  ghost predicate Ascending(log: seq<Change>) {
    forall i, j :: 0 <= i < j < |log| ==> log[i].version <= log[j].version
  }

  lemma {:induction false} ReplayAppend(m: Table, a: seq<Change>, b: seq<Change>, tableId: int, above: nat, upTo: nat)
    ensures Replay(m, a + b, tableId, above, upTo) == Replay(Replay(m, a, tableId, above, upTo), b, tableId, above, upTo)
  {
    hide Apply, Visible;
    if b == [] {
      assert a + b == a;
    } else {
      var init := b[..|b| - 1];
      ReplayAppend(m, a, init, tableId, above, upTo);
      assert (a + b)[..|a + b| - 1] == a + init;
    }
  }

  lemma {:induction false} NothingVisible(m: Table, log: seq<Change>, tableId: int, above: nat, upTo: nat)
    requires forall i :: 0 <= i < |log| ==> !Visible(log[i], tableId, above, upTo)
    ensures Replay(m, log, tableId, above, upTo) == m
  {
    hide Visible;
    if log != [] {
      NothingVisible(m, log[..|log| - 1], tableId, above, upTo);
    }
  }

  /** Two replays that see the same changes agree. */
  lemma {:induction false} SameVisible(m: Table, log: seq<Change>, tableId: int, above: nat, upTo: nat, above': nat, upTo': nat)
    requires forall i :: 0 <= i < |log| ==> (Visible(log[i], tableId, above, upTo) <==> Visible(log[i], tableId, above', upTo'))
    ensures Replay(m, log, tableId, above, upTo) == Replay(m, log, tableId, above', upTo')
  {
    hide Apply, Visible;
    if log != [] {
      SameVisible(m, log[..|log| - 1], tableId, above, upTo, above', upTo');
    }
  }

  /** The changes above a version, in order. */
  function Newer(log: seq<Change>, h: nat): seq<Change> {
    if log == [] then []
    else Newer(log[..|log| - 1], h) + (if log[|log| - 1].version > h then [log[|log| - 1]] else [])
  }

  lemma {:induction false} NewerProperties(log: seq<Change>, h: nat, top: nat)
    requires forall i :: 0 <= i < |log| ==> log[i].version <= top
    ensures forall i :: 0 <= i < |Newer(log, h)| ==> h < Newer(log, h)[i].version <= top
    ensures Ascending(log) ==> Ascending(Newer(log, h))
    ensures |Newer(log, h)| > 0 && Ascending(log) ==> Newer(log, h)[|Newer(log, h)| - 1].version <= log[|log| - 1].version
  {
    if log != [] {
      NewerProperties(log[..|log| - 1], h, top);
    }
  }

  lemma {:induction false} NewerFrom(log: seq<Change>, h: nat, tables: set<int>)
    requires forall i :: 0 <= i < |log| ==> log[i].tableId in tables
    ensures forall i :: 0 <= i < |Newer(log, h)| ==> Newer(log, h)[i].tableId in tables
  {
    if log != [] {
      NewerFrom(log[..|log| - 1], h, tables);
    }
  }

  /** Replaying up to a horizon and then only what is newer is replaying everything. */
  lemma {:induction false} Compacts(m: Table, log: seq<Change>, tableId: int, above: nat, h: nat, upTo: nat)
    requires Ascending(log) && above <= h <= upTo
    ensures Replay(Replay(m, log, tableId, above, h), Newer(log, h), tableId, h, upTo) == Replay(m, log, tableId, above, upTo)
  {
    hide Apply, Replay, Newer;
    if log == [] {
      NoChanges(m, tableId, above, upTo, h);
      NoChanges(m, tableId, h, upTo, h);
    } else if log[|log| - 1].version <= h {
      NoneNewer(log, h);
      NoChanges(Replay(m, log, tableId, above, h), tableId, h, upTo, h);
      SameVisible(m, log, tableId, above, h, above, upTo);
    } else {
      var init, last := log[..|log| - 1], log[|log| - 1];
      Compacts(m, init, tableId, above, h, upTo);
      var old_ := Replay(m, init, tableId, above, h);
      assert log == init + [last];
      ReplayAppend(m, init, [last], tableId, above, h);
      ReplayAppend(m, init, [last], tableId, above, upTo);
      ReplayAppend(old_, Newer(init, h), [last], tableId, h, upTo);
      NewerStep(init, last, h);
      OneChange(old_, last, tableId, above, h);
      OneChange(Replay(m, init, tableId, above, upTo), last, tableId, above, upTo);
      OneChange(Replay(old_, Newer(init, h), tableId, h, upTo), last, tableId, h, upTo);
    }
  }

  lemma NoChanges(m: Table, tableId: int, above: nat, upTo: nat, h: nat)
    ensures Replay(m, [], tableId, above, upTo) == m && Newer([], h) == [] && Replay(m, [], tableId, above, h) == m
  {
  }

  lemma NewerStep(init: seq<Change>, last: Change, h: nat)
    ensures Newer(init + [last], h) == Newer(init, h) + (if last.version > h then [last] else [])
  {
    assert (init + [last])[..|init + [last]| - 1] == init;
  }

  lemma OneChange(m: Table, c: Change, tableId: int, above: nat, upTo: nat)
    ensures Replay(m, [c], tableId, above, upTo) == if Visible(c, tableId, above, upTo) then Apply(m, c) else m
  {
    hide Apply, Visible;
    assert [c][..0] == [];
  }

  lemma {:induction false} NoneNewer(log: seq<Change>, h: nat)
    requires forall i :: 0 <= i < |log| ==> log[i].version <= h
    ensures Newer(log, h) == []
  {
    if log != [] {
      NoneNewer(log[..|log| - 1], h);
    }
  }

  /** Replaying freshly committed changes is overlaying them. */
  lemma {:induction false} CommittedOverlay(m: Table, pending: seq<Change>, tableId: int, v: nat, above: nat)
    requires above < v
    ensures Replay(m, Stamped(pending, v), tableId, above, v) == Overlay(m, pending, tableId)
  {
    if pending != [] {
      CommittedOverlay(m, pending[..|pending| - 1], tableId, v, above);
      assert Stamped(pending, v)[..|pending| - 1] == Stamped(pending[..|pending| - 1], v);
    }
  }

  function Stamped(pending: seq<Change>, v: nat): (out: seq<Change>)
    ensures |out| == |pending| && forall i :: 0 <= i < |out| ==> out[i] == pending[i].(version := v)
  {
    seq(|pending|, i requires 0 <= i < |pending| => pending[i].(version := v))
  }

  // ----- How far the history reaches back

  /** The part of the store's state that decides which versions can still be read. */
  datatype History = History(log: seq<Change>, baselineVersion: nat, version: nat)

  /** The history after its changes up to a horizon have been compacted. */
  function Collected(h: History, horizon: nat): History {
    var to := Horizon(h.baselineVersion, h.version, horizon);
    if to == h.baselineVersion then h else h.(log := Newer(h.log, to), baselineVersion := to)
  }

  /** The history after a commit, which collects once the log is long and old enough. */
  function Committed(h: History, pending: seq<Change>, maxChanges: nat, retainVersions: nat): History {
    if pending == [] then h
    else
      var v := h.version + 1;
      var next := History(h.log + Stamped(pending, v), h.baselineVersion, v);
      if |next.log| <= maxChanges || v <= retainVersions then next else Collected(next, v - retainVersions)
  }

  // ----- The store

  class Store {
    var log: seq<Change>
    var pending: seq<Change>
    var baseline: map<int, seq<BaseRow>>
    var knownTables: set<int>
    var txnSnapshots: map<int, nat>
    var baselineVersion: nat
    var version: nat
    var maxChanges: nat
    var retainVersions: nat

    constructor ()
      ensures Valid() && version == 0 && baselineVersion == 0 && pending == [] && log == [] && baseline == map[]
      ensures maxChanges == 2000000 && retainVersions == 200000
    {
      log, pending, baseline, knownTables, txnSnapshots := [], [], map[], {}, map[];
      baselineVersion, version, maxChanges, retainVersions := 0, 0, 2000000, 200000;
    }

    ghost predicate Valid()
      reads this
    {
      && Ascending(log) && baselineVersion <= version
      && (forall i :: 0 <= i < |log| ==> log[i].version <= version && log[i].tableId in knownTables)
      && (forall i :: 0 <= i < |pending| ==> pending[i].tableId in knownTables)
      && (forall t :: t in baseline ==> t in knownTables && Distinct(baseline[t]))
    }

    ghost function Past(): History
      reads this
    {
      History(log, baselineVersion, version)
    }

    ghost function Base(t: int): Table
      reads this
    {
      if t in baseline then RowsMap(baseline[t]) else map[]
    }

    /** A table's contents at a version. */
    ghost function At(t: int, v: nat): Table
      reads this
    {
      Replay(Base(t), log, t, baselineVersion, v)
    }

    /** What a reader asking for a version gets: versions before the baseline are clamped to it. */
    ghost function View(t: int, v: nat): Table
      reads this
    {
      At(t, if v < baselineVersion then baselineVersion else v)
    }

    /** What a transaction that started at a version sees. */
    ghost function TxnView(t: int, v: nat): Table
      reads this
    {
      Overlay(View(t, v), pending, t)
    }

    /** A version has a row exactly if the row's last change up to it is an insertion, or the row
        is in the baseline and has not been changed since. */
    lemma RowAt(t: int, v: nat, rid: RecordID, bytes: Bytes)
      requires Valid()
      ensures Holds(At(t, v), rid, bytes)
        <==> (LastInserts(log, t, rid, baselineVersion, v, bytes)
              || (NoChange(log, t, rid, baselineVersion, v) && t in baseline && BaseRow(rid, bytes) in baseline[t]))
    {
      hide LastInserts, NoChange, Distinct, RowsMap;
      ReplayHolds(Base(t), log, t, baselineVersion, v, rid, bytes);
      if t in baseline {
        RowsMapAre(baseline[t]);
        assert Holds(Base(t), rid, bytes) <==> BaseRow(rid, bytes) in baseline[t] by {
          RowsHold(baseline[t], RowsMap(baseline[t]), rid, bytes);
        }
      }
    }

    /** A transaction sees a row exactly if its own last change of it is an insertion, or it has
        not changed the row and its snapshot has it. */
    lemma RowInTxn(t: int, v: nat, rid: RecordID, bytes: Bytes)
      ensures Holds(TxnView(t, v), rid, bytes)
        <==> PendingInserts(pending, t, rid, bytes) || (NothingPendingOn(pending, t, rid) && Holds(View(t, v), rid, bytes))
    {
      OverlayHolds(View(t, v), pending, t, rid, bytes);
    }

    /** No committed version at or above the baseline has changed. */
    twostate predicate HistoryKept()
      reads this
    {
      && old(version) <= version && old(baselineVersion) <= baselineVersion
      && forall t: int, v: nat :: baselineVersion <= v <= old(version) ==> At(t, v) == old(At(t, v))
    }

    method StageInsert(tableId: int, rid: RecordID, bytes: Bytes)
      requires Valid()
      modifies this`pending, this`knownTables
      ensures Valid() && pending == old(pending) + [Change(0, tableId, false, rid, bytes)]
      ensures HistoryKept()
    {
      pending := pending + [Change(0, tableId, false, rid, bytes)];
      knownTables := knownTables + {tableId};
    }

    method StageDelete(tableId: int, rid: RecordID)
      requires Valid()
      modifies this`pending, this`knownTables
      ensures Valid() && pending == old(pending) + [Change(0, tableId, true, rid, "")]
      ensures HistoryKept()
    {
      pending := pending + [Change(0, tableId, true, rid, "")];
      knownTables := knownTables + {tableId};
    }

    method DiscardPending()
      requires Valid()
      modifies this`pending
      ensures Valid() && pending == [] && HistoryKept()
    {
      pending := [];
    }

    method SetRetention(maxChanges: nat, retainVersions: nat)
      requires Valid()
      modifies this`maxChanges, this`retainVersions
      ensures Valid() && this.maxChanges == maxChanges && this.retainVersions == retainVersions
    {
      this.maxChanges := maxChanges;
      this.retainVersions := retainVersions;
    }

    /** Rebuilds a table as of a version from the baseline and the log. */
    method Reconstruct(tableId: int, v: nat) returns (rows: seq<BaseRow>)
      requires Valid()
      ensures RowsAre(rows, At(tableId, v))
    {
      hide Represents, Apply, RowsMap, RowsAre;
      var base := if tableId in baseline then baseline[tableId] else [];
      EmptyRows();
      var w := StartFrom(base);
      var i := 0;
      while i < |log| && log[i].version <= v
        invariant 0 <= i <= |log| && Represents(w, Replay(Base(tableId), log[..i], tableId, baselineVersion, v))
      {
        assert log[..i + 1][..i] == log[..i];
        if log[i].version > baselineVersion && log[i].tableId == tableId {
          w := ApplyChange(w, log[i], Replay(Base(tableId), log[..i], tableId, baselineVersion, v));
        }
        i := i + 1;
      }
      RestInvisible(Base(tableId), log, i, tableId, baselineVersion, v);
      rows := LiveRows(w, At(tableId, v));
    }

    /** Time travel: the rows of a table as of a version. */
    method SnapshotAsOf(tableId: int, v: nat) returns (out: seq<Bytes>)
      requires Valid()
      ensures ReadsAs(out, View(tableId, v))
    {
      var at := if v < baselineVersion then baselineVersion else v;
      var found := Reconstruct(tableId, at);
      out := BytesOf(found);
    }

    method BeginSnapshot(txnId: int)
      modifies this`txnSnapshots
      ensures txnSnapshots == old(txnSnapshots)[txnId := version]
    {
      txnSnapshots := txnSnapshots[txnId := version];
    }

    method EndSnapshot(txnId: int)
      modifies this`txnSnapshots
      ensures txnSnapshots == old(txnSnapshots) - {txnId}
    {
      txnSnapshots := txnSnapshots - {txnId};
    }

    /** A transaction's view: the snapshot it started at, overlaid with the pending changes. */
    method SnapshotForTxn(tableId: int, v: nat) returns (out: seq<Bytes>)
      requires Valid()
      ensures ReadsAs(out, TxnView(tableId, v))
    {
      hide Represents, Apply, RowsMap, RowsAre, Replay;
      var at := if v < baselineVersion then baselineVersion else v;
      var base := Reconstruct(tableId, at);
      ghost var m := View(tableId, v);
      RowsAreUnique(base, m);
      var w := StartFrom(base);
      var i := 0;
      while i < |pending|
        invariant 0 <= i <= |pending| && Represents(w, Overlay(m, pending[..i], tableId))
      {
        assert pending[..i + 1][..i] == pending[..i];
        if pending[i].tableId == tableId {
          w := ApplyChange(w, pending[i], Overlay(m, pending[..i], tableId));
        }
        i := i + 1;
      }
      assert pending[..|pending|] == pending;
      var found := LiveRows(w, TxnView(tableId, v));
      out := BytesOf(found);
    }

    /** Publishes the pending changes as a new version: what a transaction that saw the
        newest version would have seen. */
    method CommitPending() returns (v: nat)
      requires Valid()
      modifies this`log, this`pending, this`baseline, this`version, this`baselineVersion
      ensures Valid() && pending == [] && v == version
      ensures version == old(version) + if old(pending) == [] then 0 else 1
      ensures HistoryKept()
      ensures forall t :: At(t, version) == old(TxnView(t, version))
      ensures Past() == Committed(old(Past()), old(pending), maxChanges, retainVersions)
    {
      hide Replay, Overlay, Ascending, RowsMap, Distinct, Stamped;
      if pending == [] {
        NothingPending();
        return version;
      }
      ghost var log0, pending0 := log, pending;
      version := version + 1;
      log := log + Stamped(pending, version);
      pending := [];
      forall t: int ensures At(t, version) == old(TxnView(t, version)) {
        PublishedView(old(Base(t)), log0, pending0, t, old(baselineVersion), old(version));
      }
      forall t: int, u: nat | baselineVersion <= u <= old(version) ensures At(t, u) == old(At(t, u)) {
        OlderUnchanged(old(Base(t)), log0, pending0, t, old(baselineVersion), u, version);
      }
      AscendingAppend(log0, pending0, version);
      label published:
      ghost var now := version;
      MaybeGc();
      forall t: int ensures At(t, version) == old@published(At(t, now)) {
      }
      v := version;
    }

    lemma NothingPending()
      requires pending == []
      ensures forall t, m :: Overlay(m, pending, t) == m
    {
    }

    /** Compacts the history up to a horizon into the baseline. */
    method Gc(horizon: nat)
      requires Valid()
      modifies this`log, this`baseline, this`baselineVersion
      ensures Valid() && HistoryKept()
      ensures forall t: int, v: nat :: v >= baselineVersion ==> At(t, v) == old(At(t, v))
      ensures Past() == Collected(old(Past()), horizon)
    {
      hide Replay, Newer, RowsMap, RowsAre, Distinct;
      var h := if horizon > version then version else horizon;
      if h <= baselineVersion {
        return;
      }
      var newBaseline := CompactTables(h);
      ghost var log0, base0, above := log, baseline, baselineVersion;
      var kept := KeepNewer(log, h);
      NewerProperties(log, h, version);
      NewerFrom(log, h, knownTables);
      log := kept;
      baseline := newBaseline;
      baselineVersion := h;
      forall t: int, v: nat | v >= h ensures At(t, v) == old(At(t, v)) {
        if t in knownTables {
          Compacts(old(Base(t)), log0, t, above, h, v);
        } else {
          UnknownEmpty(log0, t, above, v, h);
        }
      }
    }

    /** The snapshot of every known table at the horizon. */
    method CompactTables(h: nat) returns (out: map<int, seq<BaseRow>>)
      requires Valid()
      ensures out.Keys == knownTables
      ensures forall t :: t in out ==> Compacted(out[t], At(t, h))
    {
      hide Compacted;
      out := map[];
      var left := knownTables;
      while left != {}
        invariant left <= knownTables && out.Keys == knownTables - left
        invariant forall t :: t in out ==> Compacted(out[t], At(t, h))
        decreases |left|
      {
        NonEmpty(left);
        var t :| t in left;
        var rows := CompactTable(t, h);
        out := out[t := rows];
        left := left - {t};
      }
    }

    method CompactTable(t: int, h: nat) returns (rows: seq<BaseRow>)
      requires Valid()
      ensures Compacted(rows, At(t, h))
    {
      rows := Reconstruct(t, h);
      RowsAreUnique(rows, At(t, h));
    }

    method MaybeGc()
      requires Valid()
      modifies this`log, this`baseline, this`baselineVersion
      ensures Valid() && HistoryKept()
      ensures forall t: int, v: nat :: v >= baselineVersion ==> At(t, v) == old(At(t, v))
      ensures Past() == if |old(log)| <= maxChanges || version <= retainVersions then old(Past())
        else Collected(old(Past()), version - retainVersions)
    {
      if |log| <= maxChanges || version <= retainVersions {
        return;
      }
      Gc(version - retainVersions);
    }
  }

  lemma NonEmpty(s: set<int>)
    requires s != {}
    ensures exists t :: t in s
  {
    assert (forall t :: t !in s) ==> s == {};
  }

  ghost predicate Compacted(rows: seq<BaseRow>, m: Table) {
    Distinct(rows) && RowsMap(rows) == m
  }

  function Horizon(baselineVersion: nat, version: nat, horizon: nat): nat {
    var h := if horizon > version then version else horizon;
    if h <= baselineVersion then baselineVersion else h
  }

  lemma EmptyRows()
    ensures RowsMap([]) == map[] && Distinct([])
  {
  }

  lemma RestInvisible(m: Table, log: seq<Change>, i: nat, tableId: int, above: nat, v: nat)
    requires Ascending(log) && i <= |log| && (i < |log| ==> log[i].version > v)
    ensures Replay(m, log, tableId, above, v) == Replay(m, log[..i], tableId, above, v)
  {
    hide Replay;
    assert log == log[..i] + log[i..];
    ReplayAppend(m, log[..i], log[i..], tableId, above, v);
    forall j | 0 <= j < |log[i..]| ensures !Visible(log[i..][j], tableId, above, v) {
      assert log[i..][j] == log[i + j];
    }
    NothingVisible(Replay(m, log[..i], tableId, above, v), log[i..], tableId, above, v);
  }

  lemma PublishedView(m: Table, log: seq<Change>, pending: seq<Change>, tableId: int, above: nat, v: nat)
    requires above <= v && forall i :: 0 <= i < |log| ==> log[i].version <= v
    ensures Replay(m, log + Stamped(pending, v + 1), tableId, above, v + 1) == Overlay(Replay(m, log, tableId, above, v), pending, tableId)
  {
    hide Replay, Overlay;
    ReplayAppend(m, log, Stamped(pending, v + 1), tableId, above, v + 1);
    SameVisible(m, log, tableId, above, v + 1, above, v);
    CommittedOverlay(Replay(m, log, tableId, above, v), pending, tableId, v + 1, above);
  }

  lemma OlderUnchanged(m: Table, log: seq<Change>, pending: seq<Change>, tableId: int, above: nat, u: nat, v: nat)
    requires u < v
    ensures Replay(m, log + Stamped(pending, v), tableId, above, u) == Replay(m, log, tableId, above, u)
  {
    hide Replay;
    ReplayAppend(m, log, Stamped(pending, v), tableId, above, u);
    NothingVisible(Replay(m, log, tableId, above, u), Stamped(pending, v), tableId, above, u);
  }

  lemma AscendingAppend(log: seq<Change>, pending: seq<Change>, v: nat)
    requires Ascending(log) && forall i :: 0 <= i < |log| ==> log[i].version <= v
    ensures Ascending(log + Stamped(pending, v))
  {
  }

  lemma UnknownEmpty(log: seq<Change>, t: int, above: nat, v: nat, h: nat)
    requires forall i :: 0 <= i < |log| ==> log[i].tableId != t
    ensures Replay(map[], log, t, above, v) == map[] && Replay(map[], Newer(log, h), t, h, v) == map[]
  {
    hide Replay;
    NothingVisible(map[], log, t, above, v);
    NewerTables(log, h, t);
    NothingVisible(map[], Newer(log, h), t, h, v);
  }

  lemma {:induction false} NewerTables(log: seq<Change>, h: nat, t: int)
    requires forall i :: 0 <= i < |log| ==> log[i].tableId != t
    ensures forall i :: 0 <= i < |Newer(log, h)| ==> Newer(log, h)[i].tableId != t
  {
    if log != [] {
      NewerTables(log[..|log| - 1], h, t);
    }
  }

  method KeepNewer(log: seq<Change>, h: nat) returns (kept: seq<Change>)
    ensures kept == Newer(log, h)
  {
    kept := [];
    var i := 0;
    while i < |log|
      invariant 0 <= i <= |log| && kept == Newer(log[..i], h)
    {
      assert log[..i + 1][..i] == log[..i];
      if log[i].version > h {
        kept := kept + [log[i]];
      }
      i := i + 1;
    }
    assert log[..|log|] == log;
  }
}
