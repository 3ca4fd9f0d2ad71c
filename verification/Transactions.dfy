/** The transaction manager over row locks: what every run keeps is that the database is as if
    the rolled-back transactions had never run and the others had run one after another. */
module Transactions {
  import opened Values
  import opened LockManager
  import opened SerialHistories

  /** The content a row is given back. */
  datatype Undo<V> = Undo(rid: RecordID, before: V)

  function Store<V>(db: RecordID -> V, rid: RecordID, value: V): RecordID -> V {
    r => if r == rid then value else db(r)
  }

  /** A row after the undo actions, the last registered first. */
  function UndoRow<V>(undo: seq<Undo<V>>, rid: RecordID, now: V): V {
    if undo == [] then now
    else
      var last := undo[|undo| - 1];
      UndoRow(undo[..|undo| - 1], rid, if last.rid == rid then last.before else now)
  }

  ghost predicate Mentions<V>(undo: seq<Undo<V>>, rid: RecordID) {
    exists i :: 0 <= i < |undo| && undo[i].rid == rid
  }

  lemma {:induction false} UndoUntouched<V>(undo: seq<Undo<V>>, rid: RecordID, now: V)
    requires !Mentions(undo, rid)
    ensures UndoRow(undo, rid, now) == now
  {
    if undo != [] {
      assert undo[|undo| - 1].rid != rid;
      assert forall i :: 0 <= i < |undo| - 1 ==> undo[..|undo| - 1][i] == undo[i];
      UndoUntouched(undo[..|undo| - 1], rid, now);
    }
  }

  datatype LogType = Begin | Commit | Abort

  datatype LogRecord = LogRecord(txnId: int, kind: LogType)

  class Manager<V(!new)> {
    const locks: Locks
    var db: RecordID -> V
    var wal: seq<LogRecord>
    var active: map<int, seq<Undo<V>>>
    var nextTxnId: int
    /** The database before any transaction, everything done since, and the transactions that
        have been rolled back. */
    ghost const base: RecordID -> V
    ghost var history: History<V>
    ghost var aborted: set<int>

    constructor (locks: Locks, db: RecordID -> V)
      requires locks.Valid() && locks.table == map[] && locks.held == map[]
      ensures this.locks == locks && Valid() && this.db == db && base == db && history == [] && active == map[] && aborted == {}
    {
      this.locks, this.db, base := locks, db, db;
      wal, active, nextTxnId, history, aborted := [], map[], 1, [], {};
    }

    /** The history of the transactions that have not been rolled back. */
    ghost function Kept(): History<V>
      reads this`history, this`aborted
    {
      Minus(history, aborted)
    }

    ghost predicate LocksOk()
      reads this`active, this`history, this`aborted, this`nextTxnId, locks
    {
      && locks.Valid() && Strict(history)
      && (forall t :: t in active ==> t < nextTxnId && t !in aborted)
      && (forall t :: t in aborted ==> t < nextTxnId)
      && (forall t, rid :: locks.Mode(t, rid).Some? ==> t in active)
      && (forall i :: 0 <= i < |history| ==> history[i].txnId < nextTxnId)
      && (forall i :: 0 <= i < |history| && history[i].Finish? ==> history[i].txnId !in active)
      && (forall i :: IsAccess(history, i) ==> Covered(i))
    }

    /** The transaction of use i still holds its lock, or has ended since. */
    ghost predicate Covered(i: int)
      requires IsAccess(history, i)
      reads this`active, this`history, locks
    {
      if history[i].txnId in active then Holds(history[i].txnId, history[i].rid, ModeOf(history[i]))
      else FinishedBetween(history, history[i].txnId, i, |history|)
    }

    predicate Holds(t: int, rid: RecordID, mode: LockMode)
      reads locks
    {
      locks.Mode(t, rid) == Some(Exclusive) || (mode == Shared && locks.Mode(t, rid) == Some(Shared))
    }

    /** The database is what the kept transactions' writes leave, and nobody has seen anything else. */
    ghost predicate DataOk()
      reads this`db, this`history, this`aborted
    {
      && Legal(base, Kept())
      && forall rid :: db(rid) == RowAt(base, Kept(), |history|, rid)
    }

    /** Undoing a running transaction's changes would give the database without it; it has the
        rows it would give back locked. */
    ghost predicate UndoOk(t: int)
      requires t in active
      reads this`active, this`db, this`history, this`aborted, locks
    {
      && (forall i :: 0 <= i < |active[t]| ==> Holds(t, active[t][i].rid, Exclusive))
      && forall rid :: UndoRow(active[t], rid, db(rid)) == RowAt(base, Minus(Kept(), {t}), |history|, rid)
    }

    /** Every row a running transaction has written is in its undo list. */
    ghost predicate Listed(t: int)
      requires t in active
      reads this`active, this`history
    {
      forall i :: 0 <= i < |history| && history[i].Write? && history[i].txnId == t ==> Mentions(active[t], history[i].rid)
    }

    ghost predicate Core()
      reads this`active, this`db, this`history, this`aborted, this`nextTxnId, locks
    {
      LocksOk() && DataOk() && forall t :: t in active ==> UndoOk(t)
    }

    ghost predicate Valid()
      reads this`active, this`db, this`history, this`aborted, this`nextTxnId, locks
    {
      Core() && forall t :: t in active ==> Listed(t)
    }

    method Start() returns (id: int)
      requires Valid()
      modifies this
      ensures Valid() && id == old(nextTxnId) && active == old(active)[id := []] && history == old(history)
      ensures wal == old(wal) + [LogRecord(id, Begin)] && db == old(db) && aborted == old(aborted)
    {
      hide RowAt, UndoRow;
      id := nextTxnId;
      nextTxnId := nextTxnId + 1;
      active := active[id := []];
      wal := wal + [LogRecord(id, Begin)];
      assert forall i :: IsAccess(history, i) ==> old(Covered(i));
      forall t | t in active
        ensures UndoOk(t) && Listed(t)
      {
        if t == id {
          forall rid
            ensures UndoRow(active[t], rid, db(rid)) == RowAt(base, Minus(Kept(), {t}), |history|, rid)
          {
            UndoUntouched(active[t], rid, db(rid));
            MinusRow(base, Kept(), |history|, t, rid);
          }
        } else {
          assert old(UndoOk(t)) && old(Listed(t));
        }
      }
    }

    /** A running transaction asks for a lock; it may fail, after the time limit. */
    method Lock(t: int, rid: RecordID, mode: LockMode) returns (ok: bool)
      requires Valid() && t in active
      modifies locks
      ensures Valid() && (ok ==> Holds(t, rid, mode))
      ensures mode == Shared ==> (ok <==> forall u: int :: u != t ==> old(locks.Mode(u, rid)) != Some(Exclusive))
      ensures mode == Exclusive ==> (ok <==> forall u: int :: u != t ==> old(locks.Mode(u, rid)) == None)
    {
      hide RowAt, UndoRow;
      ok := locks.TryLock(t, rid, mode);
      forall i | IsAccess(history, i) ensures Covered(i) {
        assert old(Covered(i));
      }
      forall u | u in active ensures UndoOk(u) && Listed(u) {
        assert old(UndoOk(u)) && old(Listed(u));
      }
    }

    // ----- Using rows

    lemma Longer(h: History<V>, e: Event<V>, t: int, i: int, j: int)
      requires FinishedBetween(h, t, i, j)
      ensures FinishedBetween(h + [e], t, i, j) && (j == |h| ==> FinishedBetween(h + [e], t, i, j + 1))
    {
      var k :| i < k < j && EndsAt(h, t, k);
      assert EndsAt(h + [e], t, k);
    }

    lemma HoldersCompatible(t: int, u: int, rid: RecordID, m: LockMode, n: LockMode)
      requires locks.Valid() && t != u && Holds(t, rid, m) && Holds(u, rid, n)
      ensures Compatible(m, n)
    {
      assert NoConflicts(locks.table[rid]);
    }

    /** A new use conflicts only with uses whose transactions have ended. */
    lemma StrictAccess(h: History<V>, e: Event<V>)
      requires history == h + [e] && (e.Read? || e.Write?) && e.txnId in active && Holds(e.txnId, e.rid, ModeOf(e))
      requires locks.Valid() && Strict(h)
      requires forall i :: 0 <= i < |h| && h[i].Finish? ==> h[i].txnId !in active
      requires forall i :: IsAccess(h, i) ==>
        if h[i].txnId in active then Holds(h[i].txnId, h[i].rid, ModeOf(h[i])) else FinishedBetween(h, h[i].txnId, i, |h|)
      ensures Strict(history) && forall i :: IsAccess(history, i) ==> Covered(i)
    {
      hide Holds;
      forall i, j | i < j && Conflict(history, i, j) ensures FinishedBetween(history, history[i].txnId, i, j) {
        assert IsAccess(h, i) && history[i] == h[i];
        if j < |h| {
          assert Conflict(h, i, j);
          Longer(h, e, h[i].txnId, i, j);
        } else if h[i].txnId in active {
          HoldersCompatible(h[i].txnId, e.txnId, e.rid, ModeOf(h[i]), ModeOf(e));
        } else {
          Longer(h, e, h[i].txnId, i, |h|);
        }
      }
      forall i | IsAccess(history, i) ensures Covered(i) {
        if i < |h| {
          assert IsAccess(h, i);
          if h[i].txnId !in active {
            Longer(h, e, h[i].txnId, i, |h|);
          }
        }
      }
    }

    /** A row after one more event, with some transactions left out. */
    lemma KeptRow(h: History<V>, e: Event<V>, out: set<int>, rid: RecordID)
      ensures RowAt(base, Minus(h + [e], out), |h| + 1, rid)
        == if WritesRow(e, rid) && e.txnId !in out then e.value else RowAt(base, Minus(h, out), |h|, rid)
    {
      hide RowAt;
      MinusSnoc(h, e, out);
      RowSnoc(base, Minus(h, out), if e.txnId in out then Gone(e.txnId) else e, rid);
    }

    /** A running transaction reads a row it has locked. */
    method Read(t: int, rid: RecordID) returns (seen: V)
      requires Valid() && t in active && Holds(t, rid, Shared)
      modifies this`history
      ensures Valid() && seen == db(rid) && history == old(history) + [Event.Read(t, rid, seen)]
    {
      hide RowAt, UndoRow, Strict, Holds, Legal, FinishedBetween;
      ghost var h := history;
      seen := db(rid);
      ghost var e := Event.Read(t, rid, seen);
      history := history + [e];
      assert forall i :: IsAccess(h, i) ==> old(Covered(i));
      ReadLocks(h, e);
      MinusSnoc(h, e, aborted);
      LegalSnoc(base, Minus(h, aborted), e);
      forall r
        ensures db(r) == RowAt(base, Kept(), |history|, r)
      {
        KeptRow(h, e, aborted, r);
      }
      forall u | u in active
        ensures UndoOk(u) && Listed(u)
      {
        assert old(UndoOk(u)) && old(Listed(u));
        forall r
          ensures UndoRow(active[u], r, db(r)) == RowAt(base, Minus(Kept(), {u}), |history|, r)
        {
          MinusTwice(history, aborted, {u});
          MinusTwice(h, aborted, {u});
          KeptRow(h, e, aborted + {u}, r);
        }
      }
    }

    lemma ReadLocks(h: History<V>, e: Event<V>)
      requires history == h + [e] && (e.Read? || e.Write?) && e.txnId in active && Holds(e.txnId, e.rid, ModeOf(e))
      requires locks.Valid() && Strict(h)
      requires (forall t :: t in active ==> t < nextTxnId && t !in aborted) && forall t :: t in aborted ==> t < nextTxnId
      requires forall t, rid :: locks.Mode(t, rid).Some? ==> t in active
      requires forall i :: 0 <= i < |h| ==> h[i].txnId < nextTxnId
      requires forall i :: 0 <= i < |h| && h[i].Finish? ==> h[i].txnId !in active
      requires forall i :: IsAccess(h, i) ==>
        if h[i].txnId in active then Holds(h[i].txnId, h[i].rid, ModeOf(h[i])) else FinishedBetween(h, h[i].txnId, i, |h|)
      ensures LocksOk()
    {
      hide Holds;
      StrictAccess(h, e);
      hide Strict, Covered;
    }

    /** A running transaction's write to a row it has locked exclusively, with the undo list it
        is left with. */
    method Put(t: int, rid: RecordID, value: V, undo: seq<Undo<V>>)
      requires Core() && t in active && Holds(t, rid, Exclusive)
      requires forall i :: 0 <= i < |undo| ==> Holds(t, undo[i].rid, Exclusive)
      requires forall r :: UndoRow(undo, r, Store(db, rid, value)(r)) == UndoRow(active[t], r, db(r))
      modifies this`history, this`db, this`active
      ensures Core() && history == old(history) + [Write(t, rid, value)]
      ensures db == Store(old(db), rid, value) && active == old(active)[t := undo]
      ensures forall u :: u in active && u != t && old(Listed(u)) ==> Listed(u)
    {
      hide RowAt, UndoRow, Strict, Holds, Legal, FinishedBetween;
      ghost var h, db0 := history, db;
      ghost var e := Write(t, rid, value);
      history := history + [e];
      db := Store(db, rid, value);
      active := active[t := undo];
      assert forall i :: IsAccess(h, i) ==> old(Covered(i));
      ReadLocks(h, e);
      MinusSnoc(h, e, aborted);
      LegalSnoc(base, Minus(h, aborted), e);
      forall r
        ensures db(r) == RowAt(base, Kept(), |history|, r)
      {
        KeptRow(h, e, aborted, r);
      }
      forall u | u in active
        ensures UndoOk(u)
      {
        assert old(UndoOk(u));
        forall r
          ensures UndoRow(active[u], r, db(r)) == RowAt(base, Minus(Kept(), {u}), |history|, r)
        {
          MinusTwice(history, aborted, {u});
          MinusTwice(h, aborted, {u});
          KeptRow(h, e, aborted + {u}, r);
          if u != t && r == rid {
            OthersElsewhere(u, t, rid);
            UndoUntouched(active[u], rid, value);
          }
        }
      }
      forall u | u in active && u != t && old(Listed(u))
        ensures Listed(u)
      {
      }
    }

    /** A row one transaction has locked exclusively is in nobody else's undo list. */
    lemma OthersElsewhere(u: int, t: int, rid: RecordID)
      requires locks.Valid() && u in active && u != t && Holds(t, rid, Exclusive)
      requires forall i :: 0 <= i < |active[u]| ==> Holds(u, active[u][i].rid, Exclusive)
      ensures !Mentions(active[u], rid)
    {
      hide Holds;
      forall i | 0 <= i < |active[u]|
        ensures active[u][i].rid != rid
      {
        if active[u][i].rid == rid {
          HoldersCompatible(u, t, rid, Exclusive, Exclusive);
        }
      }
    }

    /** A running transaction changes a row it has locked exclusively, and registers the row's old
        content for undo. */
    method Change(t: int, rid: RecordID, value: V)
      requires Valid() && t in active && Holds(t, rid, Exclusive)
      modifies this`history, this`db, this`active
      ensures Valid() && history == old(history) + [Write(t, rid, value)] && db == Store(old(db), rid, value)
      ensures active == old(active)[t := old(active)[t] + [Undo(rid, old(db)(rid))]]
    {
      hide RowAt, Strict, Holds, Legal, FinishedBetween, Minus;
      var undo := active[t] + [Undo(rid, db(rid))];
      assert undo[..|active[t]|] == active[t];
      assert UndoOk(t) && Listed(t);
      ghost var before := active[t];
      Put(t, rid, value, undo);
      forall i | 0 <= i < |history| && history[i].Write? && history[i].txnId == t
        ensures Mentions(active[t], history[i].rid)
      {
        if i < |old(history)| {
          assert Mentions(before, history[i].rid);
          var j :| 0 <= j < |before| && before[j].rid == history[i].rid;
          assert undo[j] == before[j];
        } else {
          assert undo[|before|].rid == rid;
        }
      }
    }

    // ----- Ending

    /** The end of a transaction: its locks are released. */
    method Release(t: int)
      requires Core() && t in active
      modifies this`active, this`history, locks
      ensures LocksOk() && active == old(active) - {t} && history == old(history) + [Finish(t)]
      ensures forall u, rid :: u != t ==> locks.Mode(u, rid) == old(locks.Mode(u, rid))
    {
      hide RowAt, UndoRow, Legal;
      locks.UnlockAll(t);
      active := active - {t};
      history := history + [Finish(t)];
      ghost var h := old(history);
      assert EndsAt(history, t, |h|);
      forall i, j | i < j && Conflict(history, i, j) ensures FinishedBetween(history, history[i].txnId, i, j) {
        assert Conflict(h, i, j);
        Longer(h, Finish(t), h[i].txnId, i, j);
      }
      forall i | IsAccess(history, i) ensures Covered(i) {
        assert old(Covered(i));
        if h[i].txnId != t && h[i].txnId !in active {
          Longer(h, Finish(t), h[i].txnId, i, |h|);
        }
      }
    }

    /** Commit: the record is in the log before any lock is released. */
    method Commit(t: int)
      requires Valid()
      modifies this, locks
      ensures Valid() && db == old(db) && t !in active && aborted == old(aborted)
      ensures t !in old(active) ==> history == old(history) && wal == old(wal)
      ensures t in old(active) ==> history == old(history) + [Finish(t)] && wal == old(wal) + [LogRecord(t, LogType.Commit)]
    {
      hide RowAt, UndoRow, Strict, Legal, FinishedBetween, Covered;
      if t !in active {
        return;
      }
      wal := wal + [LogRecord(t, LogType.Commit)];
      ghost var h := history;
      Release(t);
      ghost var e := Event<V>.Finish(t);
      MinusSnoc(h, e, aborted);
      LegalSnoc(base, Minus(h, aborted), e);
      forall r
        ensures db(r) == RowAt(base, Kept(), |history|, r)
      {
        KeptRow(h, e, aborted, r);
      }
      forall u | u in active
        ensures UndoOk(u) && Listed(u)
      {
        assert old(UndoOk(u)) && old(Listed(u));
        forall r
          ensures UndoRow(active[u], r, db(r)) == RowAt(base, Minus(Kept(), {u}), |history|, r)
        {
          MinusTwice(history, aborted, {u});
          MinusTwice(h, aborted, {u});
          KeptRow(h, e, aborted + {u}, r);
        }
      }
    }

    /** Rollback: undo in reverse order while the locks are still held, then log and release.
        The database is as if the transaction had never run, whatever the others have done in
        the meantime. */
    method Rollback(t: int)
      requires Valid()
      modifies this, locks
      ensures Valid() && t !in active
      ensures t !in old(active) ==> history == old(history) && wal == old(wal) && db == old(db)
      ensures t in old(active) ==> wal == old(wal) + [LogRecord(t, Abort)] && aborted == old(aborted) + {t}
      ensures t in old(active) ==> forall rid :: db(rid) == RowAt(base, Minus(old(Kept()), {t}), |old(history)|, rid)
    {
      if t !in active {
        return;
      }
      UndoChanges(t);
      wal := wal + [LogRecord(t, Abort)];
      RollbackEnds(t);
    }

    method UndoChanges(t: int)
      requires Valid() && t in active
      modifies this`db, this`history, this`active
      ensures Core() && active == old(active)[t := []] && forall u :: u in active && u != t ==> Listed(u)
      ensures forall rid :: db(rid) == RowAt(base, Minus(old(Kept()), {t}), |old(history)|, rid)
    {
      hide RowAt, Strict, Holds, Legal, FinishedBetween, Covered, LocksOk, DataOk;
      assert UndoOk(t);
      var i := |active[t]|;
      while i > 0
        invariant t in active && i == |active[t]| && Core() && active == old(active)[t := active[t]]
        invariant forall u :: u in active && u != t ==> Listed(u)
        invariant forall rid :: UndoRow(active[t], rid, db(rid)) == old(UndoRow(active[t], rid, db(rid)))
      {
        i := i - 1;
        var undo := active[t];
        assert UndoOk(t) && Holds(t, undo[i].rid, Exclusive);
        Put(t, undo[i].rid, undo[i].before, undo[..i]);
      }
    }

    method RollbackEnds(t: int)
      requires Core() && t in active && active[t] == [] && forall u :: u in active && u != t ==> Listed(u)
      modifies this`active, this`history, this`aborted, locks
      ensures Valid() && t !in active && aborted == old(aborted) + {t}
    {
      hide RowAt, UndoRow, Strict, Legal, FinishedBetween;
      ghost var h, kept := history, Kept();
      assert UndoOk(t);
      forall u | u in active && u != t
        ensures UndoOk(u)
      {
      }
      forall u, r | u in active && u != t
        ensures UndoRow(active[u], r, db(r)) == RowAt(base, Minus(Minus(kept, {t}), {u}), |h|, r)
      {
        UndoApart(t, u, r);
      }
      WithoutRunning(t);
      forall r
        ensures db(r) == RowAt(base, Minus(kept, {t}), |h|, r)
      {
        UndoUntouched(active[t], r, db(r));
      }
      Release(t);
      aborted := aborted + {t};
      ghost var e := Event<V>.Finish(t);
      MinusTwice(h, old(aborted), {t});
      assert Minus(h, aborted) == Minus(kept, {t});
      MinusSnoc(h, e, aborted);
      LegalSnoc(base, Minus(h, aborted), Gone(t));
      forall r
        ensures db(r) == RowAt(base, Kept(), |history|, r)
      {
        KeptRow(h, e, aborted, r);
      }
      forall u | u in active
        ensures UndoOk(u) && Listed(u)
      {
        assert old(UndoOk(u)) && old(Listed(u));
        forall r
          ensures UndoRow(active[u], r, db(r)) == RowAt(base, Minus(Kept(), {u}), |history|, r)
        {
          MinusTwice(history, aborted, {u});
          MinusTwice(h, aborted, {u});
          KeptRow(h, e, aborted + {u}, r);
        }
      }
    }

    /** Nobody has seen a running transaction's changes. */
    lemma WithoutRunning(t: int)
      requires LocksOk() && DataOk() && t in active
      ensures Legal(base, Minus(Kept(), {t}))
    {
      hide Legal, RowAt, Covered, FinishedBetween;
      MinusStrict(history, aborted);
      hide Strict;
      forall k
        ensures !EndsAt(Kept(), t, k)
      {
      }
      MinusLegal(base, Kept(), t);
    }

    /** Leaving out one running transaction does not change what undoing another one gives. */
    lemma UndoApart(t: int, u: int, r: RecordID)
      requires LocksOk() && t in active && u in active && t != u && UndoOk(t) && UndoOk(u) && active[t] == [] && Listed(u)
      ensures UndoRow(active[u], r, db(r)) == RowAt(base, Minus(Minus(Kept(), {t}), {u}), |history|, r)
    {
      hide RowAt, UndoRow, Strict, Legal, FinishedBetween, Holds;
      var kept := Kept();
      MinusTwice(kept, {t}, {u});
      MinusTwice(kept, {u}, {t});
      assert {t} + {u} == {u} + {t};
      var undo := active[u];
      if Mentions(undo, r) {
        var i :| 0 <= i < |undo| && undo[i].rid == r;
        forall x | 0 <= x < |history| && WritesRow(Minus(kept, {u})[x], r)
          ensures Minus(kept, {u})[x].txnId != t
        {
          if history[x].txnId == t {
            assert IsAccess(history, x) && Covered(x);
            HoldersCompatible(t, u, r, Exclusive, Exclusive);
          }
        }
        MinusRow(base, Minus(kept, {u}), |history|, t, r);
      } else {
        UndoUntouched(undo, r, db(r));
        UndoUntouched(active[t], r, db(r));
        forall x | 0 <= x < |history| && WritesRow(Minus(kept, {t})[x], r)
          ensures Minus(kept, {t})[x].txnId != u
        {
          assert history[x].txnId == u ==> Mentions(undo, r);
        }
        MinusRow(base, Minus(kept, {t}), |history|, u, r);
      }
    }

    // ----- Serializability

    /** When every transaction has ended, the committed ones have had the effect of running one
        after another, in the order in which they committed, on the database there was at the
        start: each read sees what it saw, and the database ends as it is. */
    lemma Serializable() returns (order: seq<int>)
      requires Valid() && active == map[]
      ensures Strict(Kept()) && AllFinish(Kept()) && Serial(Kept(), order)
      ensures Legal(base, Replayed(Kept(), order))
      ensures forall rid :: db(rid) == RowAt(base, Replayed(Kept(), order), |order|, rid)
    {
      hide RowAt, Legal, Before;
      var kept := Kept();
      MinusStrict(history, aborted);
      forall i | IsAccess(kept, i)
        ensures exists k :: EndsAt(kept, kept[i].txnId, k)
      {
        assert IsAccess(history, i) && Covered(i);
        var k :| i < k < |history| && EndsAt(history, history[i].txnId, k);
        assert EndsAt(kept, kept[i].txnId, k);
      }
      order := SerialExists(kept, |kept|);
      SerialSame(base, kept, order);
    }
  }

  function ModeOf<V>(e: Event<V>): LockMode {
    if e.Read? then Shared else Exclusive
  }
}
