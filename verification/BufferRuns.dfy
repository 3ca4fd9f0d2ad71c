/** Whole runs of the buffer pool against a flat array of pages with pin counts. */
module BufferRuns {
  import opened BufferPool

  datatype Op =
    | Fetch(id: int)
    | New
    | Change(id: int, content: Content)
    | Release(id: int, dirty: bool)
    | Write(id: int)
    | WriteAll

  /** What a client gets to see: a page's content, a refusal, or nothing. */
  datatype Answer = Granted(content: Content) | Refused | Done

  /** What the pool's clients know: the pages as they should be, the pins they hold, which pages
      carry a change not yet reported, which were ever asked for, and the next page number. */
  datatype Clients = Clients(flat: int -> Content, pins: multiset<int>, unreported: set<int>, asked: set<int>, numPages: nat)

  /** The pages somebody holds. */
  function Held(c: Clients): set<int> {
    set id | id in c.pins
  }

  /** Clients change and give back only pages they hold, the last one to give back a changed
      page reports the change, and nobody asked for a page before it was allocated. */
  predicate Allowed(c: Clients, op: Op) {
    match op
    case Change(id, _) => id in c.pins
    case Release(id, dirty) => id in c.pins && (c.pins[id] == 1 && id in c.unreported ==> dirty)
    case New => c.numPages !in c.asked
    case _ => true
  }

  /** A page can be had when it is held already, or when some frame is not. */
  predicate Served(c: Clients, capacity: nat, id: int) {
    id in c.pins || |Held(c)| < capacity
  }

  /** The flat array's answer. */
  function Expected(c: Clients, capacity: nat, op: Op): Answer {
    match op
    case Fetch(id) => if Served(c, capacity, id) then Granted(c.flat(id)) else Refused
    case New => if |Held(c)| < capacity then Granted(InitialPage()) else Refused
    case _ => Done
  }

  /** The flat array after an operation. */
  function After(c: Clients, capacity: nat, op: Op): Clients {
    match op
    case Fetch(id) => c.(pins := if Served(c, capacity, id) then c.pins + multiset{id} else c.pins, asked := c.asked + {id})
    case New =>
      var id, ok := c.numPages, |Held(c)| < capacity;
      Clients(Store(c.flat, id, if ok then InitialPage() else BlankPage()), if ok then c.pins + multiset{id} else c.pins,
              c.unreported, c.asked + {id}, id + 1)
    case Change(id, content) => c.(flat := Store(c.flat, id, content), unreported := c.unreported + {id})
    case Release(id, dirty) => c.(pins := c.pins - multiset{id}, unreported := c.unreported - if dirty then {id} else {})
    case _ => c
  }

  function Store(flat: int -> Content, id: int, content: Content): int -> Content {
    x => if x == id then content else flat(x)
  }

  /** The pool holds what the clients expect of a flat array. */
  ghost predicate Simulates(pool: Pool, c: Clients)
    reads pool
  {
    && pool.Valid() && pool.numPages == c.numPages && pool.touched == c.unreported
    && (forall id :: id in pool.table ==> id in c.asked)
    && (forall id: int :: pool.Latest(id) == c.flat(id))
    && (forall id: int :: pool.Pins(id) == c.pins[id])
  }

  // ----- A frame can be had exactly when not every frame is held

  lemma {:induction false} ImageSize(s: set<int>, table: Table)
    requires forall x :: x in s ==> x in table
    requires forall x, y :: x in s && y in s && table[x] == table[y] ==> x == y
    ensures |set x | x in s :: table[x]| == |s|
  {
    var image := set x | x in s :: table[x];
    if s != {} {
      assert (forall x :: x !in s) ==> s == {};
      var a :| a in s;
      ImageSize(s - {a}, table);
      assert (set x | x in s - {a} :: table[x]) == image - {table[a]};
    }
  }

  function Below(n: nat): (s: set<int>)
    ensures |s| == n && forall x :: x in s <==> 0 <= x < n
  {
    if n == 0 then {} else Below(n - 1) + {n - 1}
  }

  lemma {:induction false} SubsetFull(s: set<int>, n: nat)
    requires forall x :: x in s ==> 0 <= x < n
    ensures |s| <= n && (|s| == n <==> forall x :: 0 <= x < n ==> x in s)
  {
    var all := Below(n);
    assert s <= all;
    Subset(s, all);
    if |s| == n {
      assert |all - s| == 0;
      assert s == all;
    } else {
      assert s != all;
    }
  }

  lemma Subset(s: set<int>, t: set<int>)
    requires s <= t
    ensures |s| <= |t| && |t - s| == |t| - |s|
  {
    assert t == s + (t - s);
  }

  lemma RoomIff(pool: Pool, c: Clients)
    requires Simulates(pool, c)
    ensures |Held(c)| < |pool.frames| <==> pool.freeList != [] || pool.lru != []
  {
    hide BlankPage, LatestIn, CleanOk, TouchedOk;
    var held, table, frames := Held(c), pool.table, pool.frames;
    forall id
      ensures id in held <==> PinnedIn(frames, table, id)
    {
      assert pool.Pins(id) == c.pins[id];
    }
    var used := set id | id in held :: table[id];
    ImageSize(held, table);
    forall f | 0 <= f < |frames|
      ensures f in used <==> frames[f].valid && frames[f].pinCount > 0
    {
      if frames[f].valid && frames[f].pinCount > 0 {
        assert table[frames[f].pageId] == f && frames[f].pageId in held;
      }
    }
    SubsetFull(used, |frames|);
    FramesFull(frames, pool.lru, pool.freeList, pool.unpinned, pool.clock);
  }

  /** No frame is free or idle exactly when every frame is pinned. */
  lemma FramesFull(frames: Frames, lru: seq<int>, freeList: seq<int>, unpinned: map<int, nat>, clock: nat)
    requires LruOk(frames, lru, unpinned, clock) && FreeOk(frames, freeList, -1)
    ensures freeList == [] && lru == [] <==> forall f :: 0 <= f < |frames| ==> frames[f].valid && frames[f].pinCount > 0
  {
    if freeList != [] {
      assert freeList[0] in freeList;
    }
    if lru != [] {
      assert lru[0] in lru;
    }
    forall f | 0 <= f < |frames| && !(frames[f].valid && frames[f].pinCount > 0)
      ensures f in freeList || f in lru
    {
    }
  }

  /** A page in the pool that nobody holds is in a frame nobody holds. */
  lemma IdleHasRoom(pool: Pool, c: Clients, id: int)
    requires Simulates(pool, c) && id in pool.table && id !in c.pins
    ensures |Held(c)| < |pool.frames|
  {
    hide BlankPage, LatestIn, CleanOk, TouchedOk;
    assert pool.Pins(id) == c.pins[id] == 0;
    assert Idle(pool.frames[pool.table[id]]);
    assert pool.table[id] in pool.lru;
    RoomIff(pool, c);
  }

  lemma PinnedHere(pool: Pool, id: int)
    requires pool.Valid() && pool.Pins(id) > 0
    ensures pool.Pinned(id) && id in pool.table && pool.frames[pool.table[id]].pinCount == pool.Pins(id)
  {
  }

  method Step(pool: Pool, op: Op, ghost c: Clients) returns (answer: Answer)
    requires Simulates(pool, c) && Allowed(c, op)
    modifies pool
    ensures Simulates(pool, After(c, |old(pool.frames)|, op)) && |pool.frames| == |old(pool.frames)|
    ensures answer == Expected(c, |old(pool.frames)|, op)
  {
    hide TableOk, LruOk, FreeOk, CleanOk, TouchedOk, BlankPage, InitialPage, LatestIn, PinsIn;
    answer := Done;
    match op {
      case Fetch(id) =>
        answer := StepFetch(pool, id, c);
      case New =>
        answer := StepNew(pool, c);
      case Change(id, content) =>
        assert pool.Pins(id) == c.pins[id];
        PinnedHere(pool, id);
        pool.Modify(id, content);
      case Release(id, dirty) =>
        assert pool.Pins(id) == c.pins[id];
        PinnedHere(pool, id);
        var _ := pool.Unpin(id, dirty);
      case Write(id) =>
        var _ := pool.Flush(id);
      case WriteAll =>
        pool.FlushAll();
    }
  }

  method StepFetch(pool: Pool, id: int, ghost c: Clients) returns (answer: Answer)
    requires Simulates(pool, c)
    modifies pool
    ensures Simulates(pool, After(c, |old(pool.frames)|, Fetch(id))) && |pool.frames| == |old(pool.frames)|
    ensures answer == Expected(c, |old(pool.frames)|, Fetch(id))
  {
    hide TableOk, LruOk, FreeOk, CleanOk, TouchedOk, BlankPage, InitialPage, LatestIn, PinsIn, Held;
    RoomIff(pool, c);
    if id in pool.table {
      if id !in c.pins {
        IdleHasRoom(pool, c, id);
      }
    } else {
      Unbuffered(pool, c, id);
    }
    var f := pool.FetchPage(id);
    answer := if f == -1 then Refused else Granted(pool.frames[f].content);
  }

  lemma Unbuffered(pool: Pool, c: Clients, id: int)
    requires Simulates(pool, c) && id !in pool.table
    ensures id !in c.pins
  {
    assert pool.Pins(id) == c.pins[id];
  }

  method StepNew(pool: Pool, ghost c: Clients) returns (answer: Answer)
    requires Simulates(pool, c) && Allowed(c, New)
    modifies pool
    ensures Simulates(pool, After(c, |old(pool.frames)|, New)) && |pool.frames| == |old(pool.frames)|
    ensures answer == Expected(c, |old(pool.frames)|, New)
  {
    hide TableOk, LruOk, FreeOk, CleanOk, TouchedOk, BlankPage, InitialPage, Held, PinsIn;
    RoomIff(pool, c);
    Unbuffered(pool, c, pool.numPages);
    var id, f := pool.NewPage();
    answer := if f == -1 then Refused else Granted(pool.frames[f].content);
  }

  // ----- Runs

  function AfterAll(c: Clients, capacity: nat, ops: seq<Op>): Clients {
    if ops == [] then c else After(AfterAll(c, capacity, ops[..|ops| - 1]), capacity, ops[|ops| - 1])
  }

  /** The flat array's answers to a run. */
  function Answers(c: Clients, capacity: nat, ops: seq<Op>): (answers: seq<Answer>)
    ensures |answers| == |ops|
  {
    if ops == [] then []
    else
      var before := ops[..|ops| - 1];
      Answers(c, capacity, before) + [Expected(AfterAll(c, capacity, before), capacity, ops[|ops| - 1])]
  }

  /** The clients keep to the rules at every step. */
  ghost predicate Disciplined(c: Clients, capacity: nat, ops: seq<Op>) {
    forall n :: 0 <= n < |ops| ==> Allowed(AfterAll(c, capacity, ops[..n]), ops[n])
  }

  /** Any run of disciplined clients gets exactly the flat array's answers: every page reads as
      last changed, and a page is refused exactly when all frames are held. */
  method Run(pool: Pool, ops: seq<Op>, ghost c: Clients) returns (answers: seq<Answer>)
    requires Simulates(pool, c) && Disciplined(c, |pool.frames|, ops)
    modifies pool
    ensures answers == Answers(c, |old(pool.frames)|, ops)
    ensures Simulates(pool, AfterAll(c, |old(pool.frames)|, ops))
  {
    hide Simulates, Allowed, After, Expected;
    ghost var capacity := |pool.frames|;
    answers := [];
    var n := 0;
    while n < |ops|
      invariant 0 <= n <= |ops| && |pool.frames| == capacity
      invariant answers == Answers(c, capacity, ops[..n]) && Simulates(pool, AfterAll(c, capacity, ops[..n]))
    {
      assert Allowed(AfterAll(c, capacity, ops[..n]), ops[n]);
      var answer := Step(pool, ops[n], AfterAll(c, capacity, ops[..n]));
      assert ops[..n + 1][..n] == ops[..n];
      answers := answers + [answer];
      n := n + 1;
    }
    assert ops[..n] == ops;
  }

  /** The account of a fresh pool's clients. */
  function Newcomers(disk: Disk, numPages: nat): Clients {
    Clients(id => DiskPage(disk, id), multiset{}, {}, {}, numPages)
  }

  /** The same from a new pool: the flat array starts as the disk. */
  method RunFresh(numFrames: nat, disk: Disk, numPages: nat, ops: seq<Op>) returns (answers: seq<Answer>)
    requires Disciplined(Newcomers(disk, numPages), if numFrames == 0 then 1 else numFrames, ops)
    ensures answers == Answers(Newcomers(disk, numPages), if numFrames == 0 then 1 else numFrames, ops)
  {
    hide BlankPage, Disciplined, Answers;
    var pool := new Pool(numFrames, disk, numPages);
    answers := Run(pool, ops, Newcomers(disk, numPages));
  }
}
