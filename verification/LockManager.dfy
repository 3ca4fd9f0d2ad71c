/** Row locks: the lock table, shared and exclusive modes with upgrade, and the list of
    locks per transaction. A waiting request is a request repeated until it is granted; a
    timeout is one that is not. */
module LockManager {
  import opened Values

  datatype LockMode = Shared | Exclusive

  type Holders = map<int, LockMode>

  /** Two transactions may hold the same row only in shared mode. */
  predicate Compatible(a: LockMode, b: LockMode) {
    a == Shared && b == Shared
  }

  predicate Grantable(holders: Holders, txnId: int, mode: LockMode) {
    forall t :: t in holders && t != txnId ==> Compatible(mode, holders[t])
  }

  /** A holder's mode after being granted a mode: exclusive once it was exclusive. */
  function Granted(holders: Holders, txnId: int, mode: LockMode): LockMode {
    if txnId in holders && holders[txnId] == Exclusive then Exclusive else mode
  }

  ghost predicate NoConflicts(holders: Holders) {
    forall t, u :: t in holders && u in holders && t != u ==> Compatible(holders[t], holders[u])
  }

  /** Without conflicts a row has one holder or only readers. */
  lemma ReadersOrOneWriter(holders: Holders)
    ensures NoConflicts(holders)
      <==> (forall t :: t in holders ==> holders[t] == Shared) || forall t, u :: t in holders && u in holders ==> t == u
  {
    if NoConflicts(holders) && exists t :: t in holders && holders[t] == Exclusive {
      var t :| t in holders && holders[t] == Exclusive;
      forall u | u in holders ensures u == t {
      }
    }
  }

  lemma GrantKeepsCompatible(holders: Holders, txnId: int, mode: LockMode)
    requires NoConflicts(holders) && Grantable(holders, txnId, mode)
    ensures NoConflicts(holders[txnId := Granted(holders, txnId, mode)])
  {
    var out := holders[txnId := Granted(holders, txnId, mode)];
    forall t, u | t in out && u in out && t != u ensures Compatible(out[t], out[u]) {
      assert t in holders && u in holders ==> Compatible(holders[t], holders[u]);
    }
  }

  function Without(held: seq<RecordID>, rid: RecordID): (out: seq<RecordID>)
    ensures forall r :: r in out <==> r in held && r != rid
  {
    if held == [] then []
    else
      var init, last := held[..|held| - 1], held[|held| - 1];
      assert held == init + [last];
      if last == rid then Without(init, rid) else Without(init, rid) + [last]
  }

  lemma {:induction false} WithoutDistinct(held: seq<RecordID>, rid: RecordID)
    requires Distinct(held)
    ensures Distinct(Without(held, rid))
  {
    if held != [] {
      var init, last := held[..|held| - 1], held[|held| - 1];
      WithoutDistinct(init, rid);
      assert last !in init;
      DistinctAppend(Without(init, rid), last);
    }
  }

  lemma DistinctAppend(held: seq<RecordID>, rid: RecordID)
    requires Distinct(held) && rid !in held
    ensures Distinct(held + [rid])
  {
  }

  ghost predicate Distinct(held: seq<RecordID>) {
    forall i, j :: 0 <= i < j < |held| ==> held[i] != held[j]
  }

  class Locks {
    var table: map<RecordID, Holders>
    var held: map<int, seq<RecordID>>

    constructor ()
      ensures Valid() && table == map[] && held == map[]
    {
      table, held := map[], map[];
    }

    /** What a transaction holds on a row. */
    function Mode(txnId: int, rid: RecordID): Option<LockMode>
      reads this
    {
      if rid in table && txnId in table[rid] then Some(table[rid][txnId]) else None
    }

    ghost predicate Lists(txnId: int, rid: RecordID)
      reads this
    {
      txnId in held && rid in held[txnId]
    }

    /** No two transactions hold conflicting locks, no entry is empty, and the lists per
        transaction mirror the table. */
    ghost predicate Valid()
      reads this
    {
      && (forall rid :: rid in table ==> NoConflicts(table[rid]) && table[rid] != map[])
      && (forall t, rid :: Lists(t, rid) <==> Mode(t, rid).Some?)
      && (forall t :: t in held ==> Distinct(held[t]))
    }

    /** Everything about other transactions and rows is as before. */
    twostate predicate OnlyChanges(txnId: int, rid: RecordID)
      reads this
    {
      forall t: int, r: RecordID :: t != txnId || r != rid ==> Mode(t, r) == old(Mode(t, r))
    }

    method CanGrant(holders: Holders, txnId: int, mode: LockMode) returns (ok: bool)
      ensures ok == Grantable(holders, txnId, mode)
    {
      var left := holders.Keys;
      while left != {}
        invariant left <= holders.Keys
        invariant forall t :: t in holders && t !in left && t != txnId ==> Compatible(mode, holders[t])
        decreases |left|
      {
        SomeMember(left);
        var t :| t in left;
        left := left - {t};
        if t != txnId && (mode == Exclusive || holders[t] == Exclusive) {
          return false;
        }
      }
      ok := true;
    }

    method Grant(rid: RecordID, txnId: int, mode: LockMode)
      requires Valid() && Grantable(if rid in table then table[rid] else map[], txnId, mode)
      modifies this
      ensures Valid() && OnlyChanges(txnId, rid)
      ensures Mode(txnId, rid) == Some(if old(Mode(txnId, rid)) == Some(Exclusive) then Exclusive else mode)
    {
      var holders := if rid in table then table[rid] else map[];
      if txnId !in holders {
        AddHolder(rid, txnId, mode, holders);
      } else if mode == Exclusive {
        GrantKeepsCompatible(holders, txnId, mode);
        table := table[rid := holders[txnId := Exclusive]];
        forall t, r ensures Lists(t, r) <==> Mode(t, r).Some? {
          assert old(Lists(t, r)) <==> old(Mode(t, r)).Some?;
        }
      } else {
        SharedIsLeast(holders[txnId]);
      }
    }

    lemma SharedIsLeast(m: LockMode)
      ensures m == Shared || m == Exclusive
    {
    }

    method AddHolder(rid: RecordID, txnId: int, mode: LockMode, holders: Holders)
      requires Valid() && holders == (if rid in table then table[rid] else map[]) && txnId !in holders && Grantable(holders, txnId, mode)
      modifies this
      ensures Valid() && OnlyChanges(txnId, rid) && Mode(txnId, rid) == Some(mode)
    {
      hide NoConflicts, Distinct, Grantable;
      NoneConflict();
      GrantKeepsCompatible(holders, txnId, mode);
      assert holders[txnId := Granted(holders, txnId, mode)] == holders[txnId := mode];
      var list := if txnId in held then held[txnId] else [];
      assert !Lists(txnId, rid) by { assert Mode(txnId, rid).None?; }
      DistinctAppend(list, rid);
      held := held[txnId := list + [rid]];
      table := table[rid := holders[txnId := mode]];
      forall t, r ensures Lists(t, r) <==> Mode(t, r).Some? {
        assert old(Lists(t, r)) <==> old(Mode(t, r)).Some?;
      }
    }

    /** Grants a shared lock exactly if no other transaction holds the row exclusively, and an
        exclusive lock exactly if no other transaction holds it at all. */
    method TryLock(txnId: int, rid: RecordID, mode: LockMode) returns (ok: bool)
      requires Valid()
      modifies this
      ensures Valid() && OnlyChanges(txnId, rid)
      ensures mode == Shared ==> (ok <==> forall t: int :: t != txnId ==> old(Mode(t, rid)) != Some(Exclusive))
      ensures mode == Exclusive ==> (ok <==> forall t: int :: t != txnId ==> old(Mode(t, rid)) == None)
      ensures ok ==> Mode(txnId, rid) == Some(if old(Mode(txnId, rid)) == Some(Exclusive) then Exclusive else mode)
      ensures !ok ==> table == old(table) && held == old(held)
    {
      var holders := if rid in table then table[rid] else map[];
      ok := CanGrant(holders, txnId, mode);
      GrantableIs(holders, txnId, mode, rid);
      if ok {
        Grant(rid, txnId, mode);
      }
    }

    lemma GrantableIs(holders: Holders, txnId: int, mode: LockMode, rid: RecordID)
      requires holders == if rid in table then table[rid] else map[]
      ensures mode == Shared ==> (Grantable(holders, txnId, mode) <==> forall t: int :: t != txnId ==> Mode(t, rid) != Some(Exclusive))
      ensures mode == Exclusive ==> (Grantable(holders, txnId, mode) <==> forall t: int :: t != txnId ==> Mode(t, rid) == None)
    {
      assert forall t: int :: Mode(t, rid) == if t in holders then Some(holders[t]) else None;
    }

    /** Any number of transactions read a row together, if none of them or others holds it
        exclusively. */
    method ShareRow(txnIds: seq<int>, rid: RecordID)
      requires Valid() && forall t: int :: Mode(t, rid) != Some(Exclusive)
      modifies this
      ensures Valid() && forall i :: 0 <= i < |txnIds| ==> Mode(txnIds[i], rid) == Some(Shared)
      ensures forall t: int, r: RecordID :: t !in txnIds || r != rid ==> Mode(t, r) == old(Mode(t, r))
    {
      var i := 0;
      while i < |txnIds|
        invariant 0 <= i <= |txnIds| && Valid() && (forall t: int :: Mode(t, rid) != Some(Exclusive))
        invariant forall j :: 0 <= j < i ==> Mode(txnIds[j], rid) == Some(Shared)
        invariant forall t: int, r: RecordID :: t !in txnIds || r != rid ==> Mode(t, r) == old(Mode(t, r))
      {
        label before:
        var ok := TryLock(txnIds[i], rid, Shared);
        assert ok && OnlyChanges@before(txnIds[i], rid);
        i := i + 1;
      }
    }

    /** Releases one lock, held or not. */
    method Unlock(txnId: int, rid: RecordID)
      requires Valid()
      modifies this
      ensures Valid() && OnlyChanges(txnId, rid) && Mode(txnId, rid) == None
    {
      Drop(txnId, rid);
      WithoutDistinct(if txnId in held then held[txnId] else [], rid);
      held := held[txnId := Without(if txnId in held then held[txnId] else [], rid)];
      forall t, r ensures Lists(t, r) <==> Mode(t, r).Some? {
        assert old(Lists(t, r)) <==> old(Mode(t, r)).Some?;
      }
    }

    /** Takes the holder off the table entry, and the entry with its last holder. */
    method Drop(txnId: int, rid: RecordID)
      requires forall r :: r in table ==> NoConflicts(table[r]) && table[r] != map[]
      modifies this`table
      ensures OnlyChanges(txnId, rid) && Mode(txnId, rid) == None
      ensures forall r :: r in table ==> NoConflicts(table[r]) && table[r] != map[]
    {
      if rid in table {
        var holders := table[rid] - {txnId};
        if holders == map[] {
          assert forall t :: t in table[rid] && t != txnId ==> t in holders;
          table := table - {rid};
        } else {
          table := table[rid := holders];
        }
      }
    }

    /** Releases everything a transaction holds. */
    method UnlockAll(txnId: int)
      requires Valid()
      modifies this
      ensures Valid()
      ensures forall rid :: Mode(txnId, rid) == None
      ensures forall t: int, rid: RecordID :: t != txnId ==> Mode(t, rid) == old(Mode(t, rid))
    {
      if txnId !in held {
        assert forall rid :: !Lists(txnId, rid);
        return;
      }
      var rids := held[txnId];
      var i := 0;
      while i < |rids|
        invariant 0 <= i <= |rids| && held == old(held)
        invariant forall r :: r in table ==> NoConflicts(table[r]) && table[r] != map[]
        invariant forall t: int, rid: RecordID :: t != txnId ==> Mode(t, rid) == old(Mode(t, rid))
        invariant forall rid :: Mode(txnId, rid) == if rid in rids[..i] then None else old(Mode(txnId, rid))
      {
        Drop(txnId, rids[i]);
        assert rids[..i + 1] == rids[..i] + [rids[i]];
        i := i + 1;
      }
      assert rids[..i] == rids;
      forall rid ensures Mode(txnId, rid) == None {
        assert old(Lists(txnId, rid)) <==> old(Mode(txnId, rid)).Some?;
      }
      held := held - {txnId};
      forall t, rid ensures Lists(t, rid) <==> Mode(t, rid).Some? {
        assert old(Lists(t, rid)) <==> old(Mode(t, rid)).Some?;
      }
    }
  }

  lemma NoneConflict()
    ensures NoConflicts(map[]) && Distinct([])
  {
  }

  lemma SomeMember(s: set<int>)
    requires s != {}
    ensures exists t :: t in s
  {
    assert (forall t :: t !in s) ==> s == {};
  }
}
