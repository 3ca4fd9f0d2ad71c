/** Sorting with bounded memory: sorted runs are spilled to files and merged through a heap. */
module ExternalSort {
  import opened Values
  import opened Bytes
  import opened RowOrder
  import opened RowCodec

  /** The next row of a run, waiting in the heap. */
  datatype Frontier = Frontier(row: Row, run: nat)

  // ----- Bags of rows

  /** All rows of some lists of rows. */
  ghost function Bag(lists: seq<seq<Row>>): multiset<Row> {
    if lists == [] then multiset{} else Bag(lists[..|lists| - 1]) + multiset(lists[|lists| - 1])
  }

  lemma BagLast(lists: seq<seq<Row>>, last: seq<Row>)
    ensures Bag(lists + [last]) == Bag(lists) + multiset(last)
  {
    assert (lists + [last])[..|lists + [last]| - 1] == lists;
  }

  lemma {:induction false} BagUpdate(lists: seq<seq<Row>>, i: nat, rows: seq<Row>)
    requires i < |lists|
    ensures Bag(lists[i := rows]) + multiset(lists[i]) == Bag(lists) + multiset(rows)
  {
    hide Bag;
    var init, last := lists[..|lists| - 1], lists[|lists| - 1];
    assert lists == init + [last];
    BagLast(init, last);
    if i < |init| {
      BagUpdate(init, i, rows);
      assert lists[i := rows] == init[i := rows] + [last] && lists[i] == init[i];
      BagLast(init[i := rows], last);
      Regroup(Bag(init[i := rows]), Bag(init), multiset(last), multiset(init[i]), multiset(rows));
    } else {
      assert lists[i := rows] == init + [rows];
      BagLast(init, rows);
    }
  }

  lemma Regroup(a: multiset<Row>, b: multiset<Row>, last: multiset<Row>, old_: multiset<Row>, new_: multiset<Row>)
    requires a + old_ == b + new_
    ensures (a + last) + old_ == (b + last) + new_
  {
    assert (a + last) + old_ == (a + old_) + last;
    assert (b + last) + new_ == (b + new_) + last;
  }

  lemma {:induction false} EmptyBag(lists: seq<seq<Row>>)
    requires forall i :: 0 <= i < |lists| ==> lists[i] == []
    ensures Bag(lists) == multiset{}
  {
    if lists != [] {
      EmptyBag(lists[..|lists| - 1]);
    }
  }

  lemma Cancel(a: multiset<Row>, b: multiset<Row>, r: Row, t: multiset<Row>)
    requires a + (multiset{r} + t) == b + t
    ensures a + multiset{r} == b
  {
    assert a + multiset{r} + t == b + t;
    assert a + multiset{r} == (a + multiset{r} + t) - t;
    assert b == (b + t) - t;
  }

  lemma {:induction false} InBag(lists: seq<seq<Row>>, i: nat, r: Row)
    requires i < |lists| && r in lists[i]
    ensures r in Bag(lists)
  {
    if i < |lists| - 1 {
      InBag(lists[..|lists| - 1], i, r);
    } else {
      assert r in multiset(lists[i]);
    }
  }

  lemma {:induction false} FromBag(lists: seq<seq<Row>>, r: Row) returns (i: nat)
    requires r in Bag(lists)
    ensures i < |lists| && r in lists[i]
  {
    var last := lists[|lists| - 1];
    if r in last {
      i := |lists| - 1;
    } else {
      assert r !in multiset(last);
      i := FromBag(lists[..|lists| - 1], r);
    }
  }

  ghost function HeapBag(heap: seq<Frontier>): multiset<Row> {
    if heap == [] then multiset{} else HeapBag(heap[..|heap| - 1]) + multiset{heap[|heap| - 1].row}
  }

  lemma HeapAdd(heap: seq<Frontier>, f: Frontier)
    ensures HeapBag(heap + [f]) == HeapBag(heap) + multiset{f.row}
  {
    assert (heap + [f])[..|heap + [f]| - 1] == heap;
  }

  lemma {:induction false} HeapRemove(heap: seq<Frontier>, i: nat)
    requires i < |heap|
    ensures HeapBag(heap) == HeapBag(heap[..i] + heap[i + 1..]) + multiset{heap[i].row}
  {
    hide HeapBag;
    var init, last := heap[..|heap| - 1], heap[|heap| - 1];
    assert heap == init + [last];
    HeapAdd(init, last);
    if i < |init| {
      HeapRemove(init, i);
      assert heap[..i] + heap[i + 1..] == (init[..i] + init[i + 1..]) + [last];
      HeapAdd(init[..i] + init[i + 1..], last);
    } else {
      assert heap[..i] + heap[i + 1..] == init;
    }
  }

  // ----- Runs

  /** A run's file holds rows sorted. */
  ghost predicate RunOk(file: seq<Byte>, pos: nat, rows: seq<Row>, keys: Keys, kinds: seq<Kind>) {
    && pos <= |file| && AllSpillable(rows) && file[pos..] == EncodeRows(rows)
    && AllKeyed(rows, keys, kinds) && Sorted(rows, keys)
  }

  ghost predicate RowsOk(rows: seq<Row>, keys: Keys, kinds: seq<Kind>) {
    AllKeyed(rows, keys, kinds) && AllSpillable(rows)
  }

  lemma SameRowsSpillable(a: seq<Row>, b: seq<Row>)
    requires multiset(a) == multiset(b) && AllSpillable(a)
    ensures AllSpillable(b)
  {
    hide RowSpillable;
    forall i | 0 <= i < |b| ensures RowSpillable(b[i]) {
      assert b[i] in multiset(b);
      assert b[i] in multiset(a);
      assert b[i] in a;
    }
  }

  /** Sorts one memory-full of rows and writes it out. */
  method WriteRun(rows: seq<Row>, keys: Keys, ghost kinds: seq<Kind>) returns (file: seq<Byte>, ghost sorted: seq<Row>)
    requires RowsOk(rows, keys, kinds)
    ensures multiset(sorted) == multiset(rows) && RunOk(file, 0, sorted, keys, kinds)
  {
    hide Sorted, StableSort, RowSpillable, EncodeRow, Keyed;
    assert forall i :: 0 <= i < |rows| ==> HasKeys(rows[i], keys);
    var run := StableSort(rows, keys);
    StableSortSorted(rows, keys, kinds);
    SameRowsKeyed(rows, run, keys, kinds);
    SameRowsSpillable(rows, run);
    file := [];
    var i := 0;
    while i < |run|
      invariant 0 <= i <= |run| && AllSpillable(run[..i]) && file == EncodeRows(run[..i])
    {
      EncodeAppend(run[..i], run[i]);
      assert run[..i + 1] == run[..i] + [run[i]];
      file := file + EncodeRow(run[i]);
      i := i + 1;
    }
    assert run[..|run|] == run && file[0..] == file;
    sorted := run;
  }

  // ----- The merge

  ghost predicate RunsOk(files: seq<seq<Byte>>, pos: seq<nat>, left: seq<seq<Row>>, keys: Keys, kinds: seq<Kind>) {
    && |files| == |pos| == |left|
    && forall i :: 0 <= i < |files| ==> RunOk(files[i], pos[i], left[i], keys, kinds)
  }

  /** A waiting row is well keyed and goes before the rest of its run. */
  ghost predicate FrontierOk(f: Frontier, left: seq<seq<Row>>, keys: Keys, kinds: seq<Kind>) {
    && f.run < |left| && Keyed(f.row, keys, kinds) && HasKeys(f.row, keys)
    && forall j :: 0 <= j < |left[f.run]| ==> Leq(f.row, left[f.run][j], keys)
  }

  /** Every waiting row is in order with its run, no run has two waiting, and every
      unfinished run among the first n has one. */
  ghost predicate HeapOk(heap: seq<Frontier>, left: seq<seq<Row>>, n: nat, keys: Keys, kinds: seq<Kind>) {
    && (forall x :: 0 <= x < |heap| ==> FrontierOk(heap[x], left, keys, kinds) && heap[x].run < n)
    && OnePerRun(heap)
    && (forall i :: 0 <= i < n && i < |left| && left[i] != [] ==> Waiting(heap, i))
  }

  ghost predicate OnePerRun(heap: seq<Frontier>) {
    forall x, y :: 0 <= x < y < |heap| ==> heap[x].run != heap[y].run
  }

  /** Like HeapOk, except that the given run has no row waiting. */
  ghost predicate HeapLacks(heap: seq<Frontier>, left: seq<seq<Row>>, run: nat, n: nat, keys: Keys, kinds: seq<Kind>) {
    && (forall x :: 0 <= x < |heap| ==> FrontierOk(heap[x], left, keys, kinds) && heap[x].run < n && heap[x].run != run)
    && OnePerRun(heap)
    && (forall i :: 0 <= i < n && i < |left| && left[i] != [] && i != run ==> Waiting(heap, i))
  }

  ghost predicate Waiting(heap: seq<Frontier>, i: nat) {
    exists x :: 0 <= x < |heap| && heap[x].run == i
  }

  /** Everything already merged goes before everything still waiting or unread. */
  ghost predicate MergedBefore(merged: seq<Row>, rest: multiset<Row>, keys: Keys) {
    forall i, r :: 0 <= i < |merged| && r in rest ==> Leq(merged[i], r, keys)
  }

  /** A heap returns some least element; which of several equal ones is its own affair. */
  method Pop(heap: seq<Frontier>, keys: Keys, ghost kinds: seq<Kind>) returns (i: nat)
    requires heap != [] && forall x :: 0 <= x < |heap| ==> Keyed(heap[x].row, keys, kinds) && HasKeys(heap[x].row, keys)
    ensures i < |heap| && forall x :: 0 <= x < |heap| ==> Leq(heap[i].row, heap[x].row, keys)
  {
    hide RowLess, Keyed, HasKeys, Leq;
    LeastExists(heap, keys, kinds);
    i :| 0 <= i < |heap| && IsLeast(heap, i, keys);
  }

  predicate IsLeast(heap: seq<Frontier>, i: nat, keys: Keys)
    requires i < |heap|
  {
    forall x :: 0 <= x < |heap| ==> Leq(heap[i].row, heap[x].row, keys)
  }

  lemma {:induction false} LeastExists(heap: seq<Frontier>, keys: Keys, kinds: seq<Kind>)
    requires heap != [] && forall x :: 0 <= x < |heap| ==> Keyed(heap[x].row, keys, kinds) && HasKeys(heap[x].row, keys)
    ensures exists i :: 0 <= i < |heap| && IsLeast(heap, i, keys)
  {
    hide RowLess, Keyed, HasKeys, Leq;
    var last := |heap| - 1;
    LeqTotal(heap[last].row, heap[last].row, keys, kinds);
    if last == 0 {
      assert IsLeast(heap, 0, keys);
    } else {
      var init := heap[..last];
      LeastExists(init, keys, kinds);
      var i :| 0 <= i < |init| && IsLeast(init, i, keys);
      LeqTotal(heap[i].row, heap[last].row, keys, kinds);
      if Leq(heap[i].row, heap[last].row, keys) {
        assert forall x :: 0 <= x < last ==> Leq(init[i].row, init[x].row, keys);
        assert IsLeast(heap, i, keys);
      } else {
        forall x | 0 <= x < |heap| ensures Leq(heap[last].row, heap[x].row, keys) {
          if x < last {
            assert Leq(init[i].row, init[x].row, keys);
            LeqTransitive(heap[last].row, heap[i].row, heap[x].row, keys, kinds);
          }
        }
        assert IsLeast(heap, last, keys);
      }
    }
  }

  /** A least waiting row goes before everything waiting or unread. */
  lemma LeastIsFirst(heap: seq<Frontier>, left: seq<seq<Row>>, i: nat, r: Row, keys: Keys, kinds: seq<Kind>)
    requires HeapOk(heap, left, |left|, keys, kinds) && i < |heap| && IsLeast(heap, i, keys) && LeftKeyed(left, keys, kinds)
    requires r in HeapBag(heap) + Bag(left)
    ensures Leq(heap[i].row, r, keys)
  {
    hide RowLess, Keyed, HasKeys, Leq;
    if r in Bag(left) {
      var n := FromBag(left, r);
      assert left[n] != [] && Waiting(heap, n);
      var x :| 0 <= x < |heap| && heap[x].run == n;
      var j :| 0 <= j < |left[n]| && left[n][j] == r;
      assert FrontierOk(heap[x], left, keys, kinds) && FrontierOk(heap[i], left, keys, kinds);
      assert AllKeyed(left[n], keys, kinds);
      LeqTransitive(heap[i].row, heap[x].row, r, keys, kinds);
    } else {
      var x := FromHeap(heap, r);
    }
  }

  ghost predicate LeftKeyed(left: seq<seq<Row>>, keys: Keys, kinds: seq<Kind>) {
    forall i :: 0 <= i < |left| ==> AllKeyed(left[i], keys, kinds)
  }

  lemma {:induction false} FromHeap(heap: seq<Frontier>, r: Row) returns (x: nat)
    requires r in HeapBag(heap)
    ensures x < |heap| && heap[x].row == r
  {
    if heap[|heap| - 1].row == r {
      x := |heap| - 1;
    } else {
      x := FromHeap(heap[..|heap| - 1], r);
    }
  }

  /** Reads a run's next row, if there is one, into the heap. */
  method Advance(files: seq<seq<Byte>>, pos: seq<nat>, run: nat, heap: seq<Frontier>,
                 ghost n: nat, ghost left: seq<seq<Row>>, ghost keys: Keys, ghost kinds: seq<Kind>)
    returns (pos': seq<nat>, heap': seq<Frontier>, ghost left': seq<seq<Row>>)
    requires RunsOk(files, pos, left, keys, kinds) && run < |files| && run < n <= |files|
    requires HeapLacks(heap, left, run, n, keys, kinds)
    ensures RunsOk(files, pos', left', keys, kinds) && HeapOk(heap', left', n, keys, kinds)
    ensures HeapBag(heap') + Bag(left') == HeapBag(heap) + Bag(left)
    ensures |heap'| + Unread(left') == |heap| + Unread(left) && |heap'| <= |heap| + 1
  {
    hide Sorted, AllKeyed, AllSpillable, Leq, Keyed, HasKeys, HeapBag, Bag, EncodeRows, Unread, FrontierOk, Waiting, OnePerRun;
    assert RunOk(files[run], pos[run], left[run], keys, kinds);
    var row, next := ReadRow(files[run], pos[run], left[run]);
    pos', heap', left' := pos, heap, left;
    if row.Some? {
      ghost var rows := left[run];
      pos' := pos[run := next];
      left' := left[run := rows[1..]];
      heap' := heap + [Frontier(row.value, run)];
      TakeFirst(rows, keys, kinds);
      BagUpdate(left, run, rows[1..]);
      FirstApart(rows);
      UnreadUpdate(left, run, rows[1..]);
      HeapAdd(heap, Frontier(row.value, run));
      Cancel(Bag(left'), Bag(left), rows[0], multiset(rows[1..]));
      NewFrontier(heap, left, run, n, keys, kinds);
    }
  }

  lemma FirstApart(rows: seq<Row>)
    requires rows != []
    ensures multiset(rows) == multiset{rows[0]} + multiset(rows[1..])
  {
    assert rows == [rows[0]] + rows[1..];
  }

  lemma TakeFirst(rows: seq<Row>, keys: Keys, kinds: seq<Kind>)
    requires rows != [] && AllKeyed(rows, keys, kinds) && Sorted(rows, keys) && AllSpillable(rows)
    ensures AllKeyed(rows[1..], keys, kinds) && Sorted(rows[1..], keys) && AllSpillable(rows[1..])
  {
    hide Keyed, HasKeys, Leq, RowSpillable;
    forall i, j | 0 <= i < j < |rows[1..]| ensures Leq(rows[1..][i], rows[1..][j], keys) {
      assert Leq(rows[i + 1], rows[j + 1], keys);
    }
  }

  lemma NewFrontier(heap: seq<Frontier>, left: seq<seq<Row>>, run: nat, n: nat, keys: Keys, kinds: seq<Kind>)
    requires run < n <= |left| && left[run] != [] && HeapLacks(heap, left, run, n, keys, kinds)
    requires AllKeyed(left[run], keys, kinds) && Sorted(left[run], keys)
    ensures HeapOk(heap + [Frontier(left[run][0], run)], left[run := left[run][1..]], n, keys, kinds)
  {
    hide Keyed, HasKeys, Leq;
    var rows, heap', left' := left[run], heap + [Frontier(left[run][0], run)], left[run := left[run][1..]];
    forall x | 0 <= x < |heap'| ensures FrontierOk(heap'[x], left', keys, kinds) {
      if x < |heap| {
        assert FrontierOk(heap[x], left, keys, kinds) && heap[x].run != run;
      } else {
        forall j | 0 <= j < |rows[1..]| ensures Leq(rows[0], rows[1..][j], keys) {
          assert Leq(rows[0], rows[j + 1], keys);
        }
      }
    }
    forall i | 0 <= i < n && left'[i] != [] ensures Waiting(heap', i) {
      if i == run {
        assert heap'[|heap|].run == run;
      } else {
        assert Waiting(heap, i);
        var x :| 0 <= x < |heap| && heap[x].run == i;
        assert heap'[x].run == i;
      }
    }
  }

  ghost function Unread(left: seq<seq<Row>>): nat {
    if left == [] then 0 else Unread(left[..|left| - 1]) + |left[|left| - 1]|
  }

  lemma {:induction false} UnreadUpdate(left: seq<seq<Row>>, i: nat, rows: seq<Row>)
    requires i < |left|
    ensures Unread(left[i := rows]) + |left[i]| == Unread(left) + |rows|
  {
    var init, out := left[..|left| - 1], left[i := rows];
    if i < |init| {
      UnreadUpdate(init, i, rows);
      assert out[..|out| - 1] == init[i := rows];
    } else {
      assert out[..|out| - 1] == init;
    }
  }

  /** Without the popped row its run has none waiting. */
  lemma PoppedLacks(heap: seq<Frontier>, left: seq<seq<Row>>, i: nat, keys: Keys, kinds: seq<Kind>)
    requires HeapOk(heap, left, |left|, keys, kinds) && i < |heap|
    ensures HeapLacks(heap[..i] + heap[i + 1..], left, heap[i].run, |left|, keys, kinds)
  {
    hide FrontierOk;
    var out := heap[..i] + heap[i + 1..];
    forall x | 0 <= x < |out| ensures FrontierOk(out[x], left, keys, kinds) && out[x].run < |left| && out[x].run != heap[i].run {
      assert out[x] == heap[if x < i then x else x + 1];
    }
    forall x, y | 0 <= x < y < |out| ensures out[x].run != out[y].run {
      assert out[x] == heap[if x < i then x else x + 1] && out[y] == heap[if y < i then y else y + 1];
    }
    forall j | 0 <= j < |left| && left[j] != [] && j != heap[i].run ensures Waiting(out, j) {
      assert Waiting(heap, j);
      var x :| 0 <= x < |heap| && heap[x].run == j;
      assert out[if x < i then x else x - 1] == heap[x];
    }
  }

  /** The next row to output goes behind everything merged and before everything left. */
  lemma MergeStep(merged: seq<Row>, heap: seq<Frontier>, left: seq<seq<Row>>, i: nat, keys: Keys, kinds: seq<Kind>)
    requires HeapOk(heap, left, |left|, keys, kinds) && LeftKeyed(left, keys, kinds) && i < |heap| && IsLeast(heap, i, keys)
    requires Sorted(merged, keys) && MergedBefore(merged, HeapBag(heap) + Bag(left), keys)
    ensures Sorted(merged + [heap[i].row], keys)
    ensures MergedBefore(merged + [heap[i].row], HeapBag(heap[..i] + heap[i + 1..]) + Bag(left), keys)
    ensures HeapBag(heap) == HeapBag(heap[..i] + heap[i + 1..]) + multiset{heap[i].row}
  {
    hide HeapOk, LeftKeyed, Leq, IsLeast;
    var rest, rest' := HeapBag(heap) + Bag(left), HeapBag(heap[..i] + heap[i + 1..]) + Bag(left);
    HeapRemove(heap, i);
    assert heap[i].row in rest;
    forall r | r in rest' ensures Leq(heap[i].row, r, keys) {
      assert r in rest;
      LeastIsFirst(heap, left, i, r, keys, kinds);
    }
    forall j, r | 0 <= j < |merged| && r in rest' ensures Leq(merged[j], r, keys) {
      assert r in rest;
    }
  }

  lemma RunsKeyed(files: seq<seq<Byte>>, pos: seq<nat>, left: seq<seq<Row>>, keys: Keys, kinds: seq<Kind>)
    requires RunsOk(files, pos, left, keys, kinds)
    ensures LeftKeyed(left, keys, kinds) && |left| == |files| == |pos|
  {
    hide AllKeyed, Sorted, AllSpillable, EncodeRows;
    forall i | 0 <= i < |left| ensures AllKeyed(left[i], keys, kinds) {
      assert RunOk(files[i], pos[i], left[i], keys, kinds);
    }
  }

  lemma AllRead(heap: seq<Frontier>, left: seq<seq<Row>>, keys: Keys, kinds: seq<Kind>)
    requires heap == [] && HeapOk(heap, left, |left|, keys, kinds)
    ensures HeapBag(heap) == multiset{} && Bag(left) == multiset{}
  {
    assert forall i :: 0 <= i < |left| ==> !Waiting(heap, i);
    EmptyBag(left);
  }

  /** The k-way merge of the runs. */
  method MergeRuns(files: seq<seq<Byte>>, keys: Keys, ghost runs: seq<seq<Row>>, ghost kinds: seq<Kind>) returns (merged: seq<Row>)
    requires RunsOk(files, seq(|files|, i => 0), runs, keys, kinds)
    ensures Sorted(merged, keys) && multiset(merged) == Bag(runs)
  {
    hide HeapOk, RunsOk, LeftKeyed, Sorted, MergedBefore, HeapBag, Bag, Leq, Keyed, HasKeys, IsLeast;
    ghost var left;
    var pos, heap;
    pos, heap, left := FillHeap(files, keys, runs, kinds);
    merged := [];
    StartMerge(heap, left, keys);
    while heap != []
      invariant RunsOk(files, pos, left, keys, kinds) && |left| == |files| && HeapOk(heap, left, |left|, keys, kinds)
      invariant Sorted(merged, keys) && MergedBefore(merged, HeapBag(heap) + Bag(left), keys)
      invariant multiset(merged) + (HeapBag(heap) + Bag(left)) == Bag(runs)
      decreases |heap| + Unread(left)
    {
      RunsKeyed(files, pos, left, keys, kinds);
      HeapKeyed(heap, left, keys, kinds);
      var i := Pop(heap, keys, kinds);
      LeastFound(heap, i, keys);
      MergeStep(merged, heap, left, i, keys, kinds);
      PoppedLacks(heap, left, i, keys, kinds);
      var top := heap[i];
      merged := merged + [top.row];
      heap := heap[..i] + heap[i + 1..];
      ghost var before := HeapBag(heap) + Bag(left);
      pos, heap, left := Advance(files, pos, top.run, heap, |left|, left, keys, kinds);
      RunsKeyed(files, pos, left, keys, kinds);
    }
    AllRead(heap, left, keys, kinds);
  }

  lemma StartMerge(heap: seq<Frontier>, left: seq<seq<Row>>, keys: Keys)
    ensures Sorted([], keys) && MergedBefore([], HeapBag(heap) + Bag(left), keys)
  {
  }

  lemma LeastFound(heap: seq<Frontier>, i: nat, keys: Keys)
    requires i < |heap| && forall x :: 0 <= x < |heap| ==> Leq(heap[i].row, heap[x].row, keys)
    ensures IsLeast(heap, i, keys)
  {
    hide Leq;
  }

  lemma HeapKeyed(heap: seq<Frontier>, left: seq<seq<Row>>, keys: Keys, kinds: seq<Kind>)
    requires HeapOk(heap, left, |left|, keys, kinds)
    ensures forall x :: 0 <= x < |heap| ==> Keyed(heap[x].row, keys, kinds) && HasKeys(heap[x].row, keys) && heap[x].run < |left|
  {
    hide Keyed, HasKeys, Leq;
    assert forall x :: 0 <= x < |heap| ==> FrontierOk(heap[x], left, keys, kinds);
  }

  /** The first row of every run enters the heap. */
  method FillHeap(files: seq<seq<Byte>>, keys: Keys, ghost runs: seq<seq<Row>>, ghost kinds: seq<Kind>)
    returns (pos: seq<nat>, heap: seq<Frontier>, ghost left: seq<seq<Row>>)
    requires RunsOk(files, seq(|files|, i => 0), runs, keys, kinds)
    ensures RunsOk(files, pos, left, keys, kinds) && |left| == |files| && HeapOk(heap, left, |left|, keys, kinds)
    ensures HeapBag(heap) + Bag(left) == Bag(runs)
  {
    hide HeapOk, RunsOk, Bag, Leq, Keyed, HasKeys, HeapLacks;
    pos, heap, left := seq(|files|, i => 0), [], runs;
    RunsKeyed(files, pos, left, keys, kinds);
    NothingWaiting(left, keys, kinds);
    var i := 0;
    while i < |files|
      invariant 0 <= i <= |files| && RunsOk(files, pos, left, keys, kinds) && |left| == |files|
      invariant HeapOk(heap, left, i, keys, kinds) && HeapBag(heap) + Bag(left) == Bag(runs)
    {
      NextLacks(heap, left, i, keys, kinds);
      pos, heap, left := Advance(files, pos, i, heap, i + 1, left, keys, kinds);
      RunsKeyed(files, pos, left, keys, kinds);
      i := i + 1;
    }
  }

  lemma NothingWaiting(left: seq<seq<Row>>, keys: Keys, kinds: seq<Kind>)
    ensures HeapOk([], left, 0, keys, kinds) && HeapBag([]) == multiset{}
  {
  }

  lemma NextLacks(heap: seq<Frontier>, left: seq<seq<Row>>, i: nat, keys: Keys, kinds: seq<Kind>)
    requires HeapOk(heap, left, i, keys, kinds)
    ensures HeapLacks(heap, left, i, i + 1, keys, kinds)
  {
    hide FrontierOk, Waiting, OnePerRun;
  }

  /** Splits the rows into runs of at most `limit` rows. */
  method SpillRuns(rows: seq<Row>, limit: nat, keys: Keys, ghost kinds: seq<Kind>)
    returns (files: seq<seq<Byte>>, ghost runs: seq<seq<Row>>)
    requires RowsOk(rows, keys, kinds) && limit > 0
    ensures RunsOk(files, seq(|files|, i => 0), runs, keys, kinds) && Bag(runs) == multiset(rows)
    ensures forall i :: 0 <= i < |runs| ==> 0 < |runs[i]| <= limit
    ensures forall i :: 0 <= i < |runs| - 1 ==> |runs[i]| == limit
  {
    hide RunOk, RowsOk, Bag;
    files, runs := [], [];
    NoBag();
    var start := 0;
    while start < |rows|
      invariant 0 <= start <= |rows| && |files| == |runs|
      invariant forall i :: 0 <= i < |files| ==> RunOk(files[i], 0, runs[i], keys, kinds)
      invariant Bag(runs) == multiset(rows[..start])
      invariant forall i :: 0 <= i < |runs| ==> 0 < |runs[i]| <= limit && (start < |rows| ==> |runs[i]| == limit)
      invariant forall i :: 0 <= i < |runs| - 1 ==> |runs[i]| == limit
    {
      var end := if start + limit < |rows| then start + limit else |rows|;
      SliceOk(rows, start, end, keys, kinds);
      var file; ghost var run;
      file, run := WriteRun(rows[start..end], keys, kinds);
      SameLength(run, rows[start..end]);
      assert rows[..end] == rows[..start] + rows[start..end];
      BagLast(runs, run);
      files := files + [file];
      runs := runs + [run];
      start := end;
    }
    assert rows[..|rows|] == rows;
  }

  lemma NoBag()
    ensures Bag([]) == multiset{}
  {
  }

  lemma SameLength(a: seq<Row>, b: seq<Row>)
    requires multiset(a) == multiset(b)
    ensures |a| == |b|
  {
    assert |multiset(a)| == |a| && |multiset(b)| == |b|;
  }

  lemma SliceOk(rows: seq<Row>, start: nat, end: nat, keys: Keys, kinds: seq<Kind>)
    requires RowsOk(rows, keys, kinds) && start <= end <= |rows|
    ensures RowsOk(rows[start..end], keys, kinds)
  {
    hide Keyed, HasKeys, RowSpillable;
  }

  /** Sorts rows whatever the memory limit: the result is sorted and holds the same rows.
      When everything fits into memory it is the stable sort. */
  method Sort(rows: seq<Row>, keys: Keys, memLimitRows: nat, ghost kinds: seq<Kind>) returns (out: seq<Row>)
    requires RowsOk(rows, keys, kinds)
    ensures Sorted(out, keys) && multiset(out) == multiset(rows)
    ensures |rows| <= memLimitRows ==> out == StableSort(rows, keys)
  {
    hide Sorted, RunsOk, Keyed, HasKeys;
    assert forall i :: 0 <= i < |rows| ==> HasKeys(rows[i], keys);
    var limit := if memLimitRows == 0 then 1 else memLimitRows;
    if |rows| <= limit {
      StableSortSorted(rows, keys, kinds);
      return StableSort(rows, keys);
    }
    var files; ghost var runs;
    files, runs := SpillRuns(rows, limit, keys, kinds);
    out := MergeRuns(files, keys, runs, kinds);
  }
}
