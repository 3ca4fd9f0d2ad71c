/** Histories of transactions under strict two-phase locking, and why each one has the effect of
    running its transactions one after another in the order in which they end. */
module SerialHistories {
  import opened Values

  /** A transaction reads a row's content, writes it, or ends (by commit or rollback). Events
      of transactions that are left out of account are gone. */
  datatype Event<V> =
    | Read(txnId: int, rid: RecordID, seen: V)
    | Write(txnId: int, rid: RecordID, value: V)
    | Finish(txnId: int)
    | Gone(txnId: int)

  type History<V> = seq<Event<V>>

  predicate IsAccess<V>(h: History<V>, i: int) {
    0 <= i < |h| && (h[i].Read? || h[i].Write?)
  }

  predicate WritesRow<V>(e: Event<V>, rid: RecordID) {
    e.Write? && e.rid == rid
  }

  /** Two uses of a row by different transactions, not both reads. */
  predicate Conflict<V>(h: History<V>, i: int, j: int) {
    && IsAccess(h, i) && IsAccess(h, j)
    && h[i].txnId != h[j].txnId && h[i].rid == h[j].rid && (h[i].Write? || h[j].Write?)
  }

  ghost predicate FinishedBetween<V(!new)>(h: History<V>, t: int, i: int, j: int) {
    exists k :: i < k < j && EndsAt(h, t, k)
  }

  /** Where a transaction ends. */
  predicate EndsAt<V>(h: History<V>, t: int, k: int) {
    0 <= k < |h| && h[k].Finish? && h[k].txnId == t
  }

  /** What strict two-phase locking guarantees: conflicting uses are separated by the end of
      the first one's transaction, and a transaction does nothing after its end. */
  ghost predicate Strict<V(!new)>(h: History<V>) {
    && (forall i, j :: i < j && Conflict(h, i, j) ==> FinishedBetween(h, h[i].txnId, i, j))
    && (forall i, j :: 0 <= i < j < |h| && h[i].Finish? ==> h[j].txnId != h[i].txnId)
  }

  ghost predicate AllFinish<V(!new)>(h: History<V>) {
    forall i :: IsAccess(h, i) ==> exists k :: EndsAt(h, h[i].txnId, k)
  }

  // ----- What rows hold

  /** A row after the first n events. */
  function RowAt<V>(base: RecordID -> V, h: History<V>, n: nat, rid: RecordID): V
    requires n <= |h|
  {
    if n == 0 then base(rid)
    else if WritesRow(h[n - 1], rid) then h[n - 1].value
    else RowAt(base, h, n - 1, rid)
  }

  /** Every read saw what the row held. */
  ghost predicate Legal<V(!new)>(base: RecordID -> V, h: History<V>) {
    forall i :: 0 <= i < |h| && h[i].Read? ==> h[i].seen == RowAt(base, h, i, h[i].rid)
  }

  /** The last write decides. */
  lemma {:induction false} LastWrite<V(!new)>(base: RecordID -> V, h: History<V>, w: nat, n: nat, rid: RecordID)
    requires w < n <= |h| && WritesRow(h[w], rid)
    requires forall x :: w < x < n ==> !WritesRow(h[x], rid)
    ensures RowAt(base, h, n, rid) == h[w].value
    decreases n
  {
    if w < n - 1 {
      LastWrite(base, h, w, n - 1, rid);
    }
  }

  lemma {:induction false} NeverWritten<V(!new)>(base: RecordID -> V, h: History<V>, n: nat, rid: RecordID)
    requires n <= |h| && forall x :: 0 <= x < n ==> !WritesRow(h[x], rid)
    ensures RowAt(base, h, n, rid) == base(rid)
  {
    if n > 0 {
      NeverWritten(base, h, n - 1, rid);
    }
  }

  lemma {:induction false} SamePrefix<V(!new)>(base: RecordID -> V, h: History<V>, h': History<V>, n: nat, rid: RecordID)
    requires n <= |h| && n <= |h'|
    requires forall x :: 0 <= x < n ==> (WritesRow(h[x], rid) <==> WritesRow(h'[x], rid)) && (WritesRow(h[x], rid) ==> h[x].value == h'[x].value)
    ensures RowAt(base, h, n, rid) == RowAt(base, h', n, rid)
  {
    if n > 0 {
      SamePrefix(base, h, h', n - 1, rid);
    }
  }

  /** The last of the first n events that writes the row, if any does. */
  lemma {:induction false} FindLast<V(!new)>(h: History<V>, n: nat, rid: RecordID) returns (w: int)
    requires n <= |h|
    ensures -1 <= w < n && (w >= 0 ==> WritesRow(h[w], rid)) && forall x :: w < x < n ==> !WritesRow(h[x], rid)
  {
    if n == 0 {
      w := -1;
    } else if WritesRow(h[n - 1], rid) {
      w := n - 1;
    } else {
      w := FindLast(h, n - 1, rid);
    }
  }

  // ----- The serial order

  lemma EndIsUnique<V(!new)>(h: History<V>, t: int, k: int, k': int)
    requires Strict(h) && EndsAt(h, t, k) && EndsAt(h, t, k')
    ensures k == k'
  {
  }

  /** The end of the transaction of event i. */
  ghost function End<V(!new)>(h: History<V>, i: int): (k: int)
    requires Strict(h) && AllFinish(h) && IsAccess(h, i)
    ensures EndsAt(h, h[i].txnId, k) && k > i
  {
    var k :| EndsAt(h, h[i].txnId, k);
    k
  }

  /** Transactions in the order in which they end, each one's uses in their own order. */
  ghost predicate Before<V(!new)>(h: History<V>, i: int, j: int)
    requires Strict(h) && AllFinish(h) && IsAccess(h, i) && IsAccess(h, j)
  {
    End(h, i) < End(h, j) || (h[i].txnId == h[j].txnId && i < j)
  }

  /** The serial order is total and runs one transaction at a time. */
  lemma SerialOrder<V(!new)>(h: History<V>, i: int, j: int, k: int)
    requires Strict(h) && AllFinish(h) && IsAccess(h, i) && IsAccess(h, j) && IsAccess(h, k)
    ensures !Before(h, i, i)
    ensures i != j ==> Before(h, i, j) || Before(h, j, i)
    ensures Before(h, i, j) && Before(h, j, k) ==> Before(h, i, k)
    ensures Before(h, i, j) && Before(h, j, k) && h[i].txnId == h[k].txnId ==> h[j].txnId == h[i].txnId
  {
    hide Strict, AllFinish, EndsAt;
    SameEnd(h, i, j);
    SameEnd(h, j, k);
    SameEnd(h, i, k);
  }

  lemma SameEnd<V(!new)>(h: History<V>, i: int, j: int)
    requires Strict(h) && AllFinish(h) && IsAccess(h, i) && IsAccess(h, j)
    ensures End(h, i) == End(h, j) <==> h[i].txnId == h[j].txnId
  {
    if h[i].txnId == h[j].txnId {
      EndIsUnique(h, h[i].txnId, End(h, i), End(h, j));
    }
  }

  /** Conflict serializability: conflicting uses come in the same order in the history and in
      the serial order. */
  lemma ConflictsKeepOrder<V(!new)>(h: History<V>, i: int, j: int)
    requires Strict(h) && AllFinish(h) && Conflict(h, i, j)
    ensures i < j <==> Before(h, i, j)
  {
    if i < j {
      EarlierEndsFirst(h, i, j);
    } else if j < i {
      EarlierEndsFirst(h, j, i);
    }
  }

  lemma EarlierEndsFirst<V(!new)>(h: History<V>, i: int, j: int)
    requires Strict(h) && AllFinish(h) && Conflict(h, i, j) && i < j
    ensures End(h, i) < End(h, j)
  {
    assert FinishedBetween(h, h[i].txnId, i, j);
    var k :| i < k < j && EndsAt(h, h[i].txnId, k);
    EndIsUnique(h, h[i].txnId, k, End(h, i));
  }

  /** A write and any other use of the same row are ordered alike in both. */
  lemma WriteKeepsOrder<V(!new)>(h: History<V>, x: int, i: int)
    requires Strict(h) && AllFinish(h) && IsAccess(h, i) && IsAccess(h, x) && h[x].Write? && h[x].rid == h[i].rid
    ensures x < i <==> Before(h, x, i)
  {
    if h[x].txnId == h[i].txnId {
      SameEnd(h, x, i);
    } else {
      assert Conflict(h, x, i);
      ConflictsKeepOrder(h, x, i);
    }
  }

  // ----- The serial history

  /** `order` lists every use once, in the serial order. */
  ghost predicate Serial<V(!new)>(h: History<V>, order: seq<int>)
    requires Strict(h) && AllFinish(h)
  {
    && (forall k :: 0 <= k < |order| ==> IsAccess(h, order[k]))
    && (forall a, b :: 0 <= a < b < |order| ==> Before(h, order[a], order[b]))
    && forall i :: IsAccess(h, i) ==> i in order
  }

  function Replayed<V>(h: History<V>, order: seq<int>): (s: History<V>)
    requires forall k :: 0 <= k < |order| ==> 0 <= order[k] < |h|
    ensures |s| == |order| && forall k :: 0 <= k < |s| ==> s[k] == h[order[k]]
  {
    seq(|order|, k requires 0 <= k < |order| => h[order[k]])
  }

  /** Where the serial history is up to a use (or its end, for -1): the writes it has made of the
      row are those the history has made. */
  ghost predicate SameWrites<V(!new)>(h: History<V>, order: seq<int>, k: nat, n: nat, rid: RecordID)
    requires k <= |order| && n <= |h|
  {
    forall x :: 0 <= x < |h| && WritesRow(h[x], rid) ==> (x < n <==> x in order[..k])
  }

  lemma SerialRow<V(!new)>(base: RecordID -> V, h: History<V>, order: seq<int>, k: nat, n: nat, rid: RecordID)
    requires Strict(h) && AllFinish(h) && Serial(h, order) && k <= |order| && n <= |h|
    requires SameWrites(h, order, k, n, rid)
    ensures RowAt(base, Replayed(h, order), k, rid) == RowAt(base, h, n, rid)
  {
    hide Strict, AllFinish, Before;
    var s := Replayed(h, order);
    var w := FindLast(h, n, rid);
    if w < 0 {
      forall m | 0 <= m < k
        ensures !WritesRow(s[m], rid)
      {
        assert order[m] in order[..k];
      }
      NeverWritten(base, h, n, rid);
      NeverWritten(base, s, k, rid);
    } else {
      assert w in order[..k];
      var p :| 0 <= p < |order[..k]| && order[..k][p] == w;
      LastWrite(base, h, w, n, rid);
      forall m | p < m < k
        ensures !WritesRow(s[m], rid)
      {
        assert order[m] in order[..k];
        if WritesRow(s[m], rid) {
          LaterInOrder(h, order, p, m, rid);
        }
      }
      LastWrite(base, s, p, k, rid);
    }
  }

  /** A later write in the serial order is later in the history. */
  lemma LaterInOrder<V(!new)>(h: History<V>, order: seq<int>, p: nat, m: nat, rid: RecordID)
    requires Strict(h) && AllFinish(h) && Serial(h, order) && p < m < |order|
    requires WritesRow(h[order[p]], rid) && WritesRow(h[order[m]], rid)
    ensures order[p] < order[m]
  {
    hide Strict, AllFinish;
    assert Before(h, order[p], order[m]);
    hide Before;
    WriteKeepsOrder(h, order[p], order[m]);
  }

  /** Up to a read, the serial history has made the writes of its row that the history has. */
  lemma SameBeforeRead<V(!new)>(h: History<V>, order: seq<int>, k: nat, rid: RecordID)
    requires Strict(h) && AllFinish(h) && Serial(h, order) && k < |order| && h[order[k]].Read? && h[order[k]].rid == rid
    ensures SameWrites(h, order, k, order[k], rid)
  {
    hide Strict, AllFinish;
    forall x | 0 <= x < |h| && WritesRow(h[x], rid)
      ensures x < order[k] <==> x in order[..k]
    {
      assert x in order;
      var p :| 0 <= p < |order| && order[p] == x;
      WriteKeepsOrder(h, x, order[k]);
      SerialOrder(h, x, order[k], x);
      if p < k {
        assert order[..k][p] == x;
        assert Before(h, order[p], order[k]);
      } else {
        assert p != k;
        assert Before(h, order[k], order[p]);
        NotEarlier(h, order, k, x);
      }
    }
  }

  lemma NotEarlier<V(!new)>(h: History<V>, order: seq<int>, k: nat, x: int)
    requires Strict(h) && AllFinish(h) && Serial(h, order) && k < |order| && IsAccess(h, x) && Before(h, order[k], x)
    ensures x !in order[..k]
  {
    hide Strict, AllFinish;
    if x in order[..k] {
      var p :| 0 <= p < |order[..k]| && order[..k][p] == x;
      assert Before(h, order[p], order[k]);
      SerialOrder(h, x, order[k], x);
    }
  }

  /** View serializability: running the transactions one after another, in the order in which
      they end, every read sees what it saw, and the database ends the same. */
  lemma SerialSame<V(!new)>(base: RecordID -> V, h: History<V>, order: seq<int>)
    requires Strict(h) && AllFinish(h) && Serial(h, order) && Legal(base, h)
    ensures Legal(base, Replayed(h, order))
    ensures forall rid :: RowAt(base, Replayed(h, order), |order|, rid) == RowAt(base, h, |h|, rid)
  {
    hide Strict, AllFinish, Before, RowAt;
    var s := Replayed(h, order);
    forall k | 0 <= k < |s| && s[k].Read?
      ensures s[k].seen == RowAt(base, s, k, s[k].rid)
    {
      SameBeforeRead(h, order, k, s[k].rid);
      SerialRow(base, h, order, k, order[k], s[k].rid);
    }
    forall rid
      ensures RowAt(base, s, |order|, rid) == RowAt(base, h, |h|, rid)
    {
      assert order[..|order|] == order;
      SerialRow(base, h, order, |order|, |h|, rid);
    }
  }

  // ----- There is a serial order

  /** The uses among the first n events, in the serial order. */
  ghost predicate SerialTo<V(!new)>(h: History<V>, order: seq<int>, n: nat)
    requires Strict(h) && AllFinish(h)
  {
    && (forall k :: 0 <= k < |order| ==> IsAccess(h, order[k]) && order[k] < n)
    && (forall a, b :: 0 <= a < b < |order| ==> Before(h, order[a], order[b]))
    && forall i :: IsAccess(h, i) && i < n ==> i in order
  }

  lemma {:induction false} SerialExists<V(!new)>(h: History<V>, n: nat) returns (order: seq<int>)
    requires Strict(h) && AllFinish(h) && n <= |h|
    ensures SerialTo(h, order, n)
    decreases n
  {
    hide Strict, AllFinish, Before;
    if n == 0 {
      return [];
    }
    var rest := SerialExists(h, n - 1);
    if !IsAccess(h, n - 1) {
      return rest;
    }
    var p := Slot(h, rest, n - 1, |rest|);
    order := rest[..p] + [n - 1] + rest[p..];
    Slotted(h, rest, n - 1, p);
  }

  /** The place of a use among sorted ones. */
  lemma {:induction false} Slot<V(!new)>(h: History<V>, rest: seq<int>, x: int, m: nat) returns (p: nat)
    requires Strict(h) && AllFinish(h) && IsAccess(h, x) && m <= |rest|
    requires forall k :: 0 <= k < |rest| ==> IsAccess(h, rest[k]) && rest[k] != x
    requires forall a, b :: 0 <= a < b < |rest| ==> Before(h, rest[a], rest[b])
    requires forall k :: m <= k < |rest| ==> Before(h, x, rest[k])
    ensures p <= |rest|
    ensures (forall k :: 0 <= k < p ==> Before(h, rest[k], x)) && forall k :: p <= k < |rest| ==> Before(h, x, rest[k])
    decreases m
  {
    hide Strict, AllFinish;
    if m == 0 {
      return 0;
    }
    SerialOrder(h, rest[m - 1], x, x);
    hide Before;
    if Before(h, x, rest[m - 1]) {
      p := Slot(h, rest, x, m - 1);
    } else {
      p := m;
      forall k | 0 <= k < m
        ensures Before(h, rest[k], x)
      {
        SerialOrder(h, rest[k], rest[m - 1], x);
      }
    }
  }

  lemma Slotted<V(!new)>(h: History<V>, rest: seq<int>, x: nat, p: nat)
    requires Strict(h) && AllFinish(h) && IsAccess(h, x) && SerialTo(h, rest, x) && p <= |rest|
    requires (forall k :: 0 <= k < p ==> Before(h, rest[k], x)) && forall k :: p <= k < |rest| ==> Before(h, x, rest[k])
    ensures SerialTo(h, rest[..p] + [x] + rest[p..], x + 1)
  {
    hide Strict, AllFinish, Before;
    var order := rest[..p] + [x] + rest[p..];
    assert rest == rest[..p] + rest[p..];
    forall a, b | 0 <= a < b < |order|
      ensures Before(h, order[a], order[b])
    {
    }
    forall i | IsAccess(h, i) && i < x + 1
      ensures i in order
    {
      assert i != x ==> i in rest;
    }
  }

  // ----- Leaving transactions out

  /** The history without some transactions' events. */
  function Minus<V>(h: History<V>, txns: set<int>): (m: History<V>)
    ensures |m| == |h| && forall i :: 0 <= i < |h| ==> m[i] == if h[i].txnId in txns then Gone(h[i].txnId) else h[i]
  {
    seq(|h|, i requires 0 <= i < |h| => if h[i].txnId in txns then Gone(h[i].txnId) else h[i])
  }

  lemma MinusStrict<V(!new)>(h: History<V>, txns: set<int>)
    requires Strict(h)
    ensures Strict(Minus(h, txns))
  {
    var m := Minus(h, txns);
    forall i, j | i < j && Conflict(m, i, j)
      ensures FinishedBetween(m, m[i].txnId, i, j)
    {
      assert Conflict(h, i, j);
      var k :| i < k < j && EndsAt(h, h[i].txnId, k);
      assert EndsAt(m, m[i].txnId, k);
    }
  }

  lemma MinusTwice<V>(h: History<V>, a: set<int>, b: set<int>)
    ensures Minus(Minus(h, a), b) == Minus(h, a + b)
  {
  }

  lemma MinusSnoc<V>(h: History<V>, e: Event<V>, txns: set<int>)
    ensures Minus(h + [e], txns) == Minus(h, txns) + [if e.txnId in txns then Gone(e.txnId) else e]
  {
  }

  /** Leaving out a transaction that has not written a row leaves the row as it is. */
  lemma MinusRow<V(!new)>(base: RecordID -> V, h: History<V>, n: nat, t: int, rid: RecordID)
    requires n <= |h| && forall x :: 0 <= x < n && WritesRow(h[x], rid) ==> h[x].txnId != t
    ensures RowAt(base, Minus(h, {t}), n, rid) == RowAt(base, h, n, rid)
  {
    SamePrefix(base, h, Minus(h, {t}), n, rid);
  }

  /** Nobody else has seen what a transaction has written before its end. */
  lemma MinusLegal<V(!new)>(base: RecordID -> V, h: History<V>, t: int)
    requires Strict(h) && Legal(base, h) && forall k :: !EndsAt(h, t, k)
    ensures Legal(base, Minus(h, {t}))
  {
    hide RowAt;
    var m := Minus(h, {t});
    forall i | 0 <= i < |m| && m[i].Read?
      ensures m[i].seen == RowAt(base, m, i, m[i].rid)
    {
      forall x | 0 <= x < i && WritesRow(h[x], h[i].rid)
        ensures h[x].txnId != t
      {
        assert !FinishedBetween(h, t, x, i);
        assert h[x].txnId == t ==> Conflict(h, x, i);
      }
      MinusRow(base, h, i, t, h[i].rid);
    }
  }

  lemma RowSnoc<V(!new)>(base: RecordID -> V, h: History<V>, e: Event<V>, rid: RecordID)
    ensures RowAt(base, h + [e], |h| + 1, rid) == if WritesRow(e, rid) then e.value else RowAt(base, h, |h|, rid)
  {
    SamePrefix(base, h + [e], h, |h|, rid);
  }

  lemma LegalSnoc<V(!new)>(base: RecordID -> V, h: History<V>, e: Event<V>)
    requires Legal(base, h) && (e.Read? ==> e.seen == RowAt(base, h, |h|, e.rid))
    ensures Legal(base, h + [e])
  {
    hide RowAt;
    var h' := h + [e];
    forall i | 0 <= i < |h'| && h'[i].Read?
      ensures h'[i].seen == RowAt(base, h', i, h'[i].rid)
    {
      SamePrefix(base, h', h, i, h'[i].rid);
    }
  }
}
