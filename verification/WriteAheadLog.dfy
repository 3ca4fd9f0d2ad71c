/** The log file: framed records, appended with rising LSNs, and what is read back of a file that
    a crash has cut off anywhere. */
module WriteAheadLog {
  import opened Values
  import opened Bytes
  import opened PageLayout
  import opened Recovery
  import opened RowCodec

  // ----- Records as bytes

  function TypeByte(k: LogType): Byte {
    match k
    case Begin => 0
    case Insert => 1
    case Delete => 2
    case Update => 3
    case Commit => 4
    case Abort => 5
  }

  function ByteType(b: Byte): LogType {
    if b == 0 then Begin else if b == 1 then Insert else if b == 2 then Delete
    else if b == 3 then Update else if b == 4 then Commit else Abort
  }

  function PutString(s: Record): (r: seq<Byte>)
    ensures |r| == 4 + |s|
  {
    PutUnsigned(|s|, 4) + s
  }

  /** Fields of the sizes the record's types have. */
  predicate Loggable(r: LogRecord) {
    && r.lsn < WORD && IsInt32(r.txnId) && IsInt32(r.tableId) && IsInt32(r.rid.page) && IsInt32(r.rid.slot)
    && |r.before| + |r.after| + 33 < 0x1_0000_0000
  }

  function Head(r: LogRecord): (b: seq<Byte>)
    requires Loggable(r)
    ensures |b| == 25
  {
    PutUnsigned(r.lsn, 8) + PutI32(r.txnId) + [TypeByte(r.kind)] + PutI32(r.tableId) + PutI32(r.rid.page) + PutI32(r.rid.slot)
  }

  function Body(r: LogRecord): (b: seq<Byte>)
    requires Loggable(r)
    ensures |b| == 33 + |r.before| + |r.after|
  {
    Head(r) + PutString(r.before) + PutString(r.after)
  }

  /** A record's bytes behind their number. */
  function Frame(r: LogRecord): (b: seq<Byte>)
    requires Loggable(r)
    ensures |b| == 4 + |Body(r)|
  {
    PutUnsigned(|Body(r)|, 4) + Body(r)
  }

  ghost predicate AllLoggable(rs: seq<LogRecord>) {
    forall i :: 0 <= i < |rs| ==> Loggable(rs[i])
  }

  function Frames(rs: seq<LogRecord>): seq<Byte>
    requires AllLoggable(rs)
  {
    if rs == [] then [] else Frames(rs[..|rs| - 1]) + Frame(rs[|rs| - 1])
  }

  lemma FramesSnoc(rs: seq<LogRecord>, r: LogRecord)
    requires AllLoggable(rs) && Loggable(r)
    ensures AllLoggable(rs + [r]) && Frames(rs + [r]) == Frames(rs) + Frame(r)
  {
    hide Frame, Loggable;
    assert (rs + [r])[..|rs|] == rs;
  }

  lemma NoFrames()
    ensures Frames([]) == []
  {
  }

  lemma {:induction false} FramesFrom(rs: seq<LogRecord>)
    requires AllLoggable(rs) && rs != []
    ensures AllLoggable(rs[1..]) && Frames(rs) == Frame(rs[0]) + Frames(rs[1..])
  {
    hide Frame, Loggable, Frames;
    var n := |rs| - 1;
    NoFrames();
    if n == 0 {
      assert rs == [] + [rs[0]];
      FramesSnoc([], rs[0]);
      assert rs[1..] == [];
    } else {
      var init, last := rs[..n], rs[n];
      assert rs == init + [last] && rs[1..] == init[1..] + [last];
      FramesFrom(init);
      FramesSnoc(init, last);
      FramesSnoc(init[1..], last);
    }
  }

  // ----- Reading

  lemma LengthReads(n: nat)
    requires n < 0x1_0000_0000
    ensures GetUnsigned(PutUnsigned(n, 4)) == n
  {
    LengthFits(n);
  }

  lemma LsnReads(lsn: nat)
    requires lsn < WORD
    ensures GetUnsigned(PutUnsigned(lsn, 8)) == lsn
  {
    hide PutUnsigned, GetUnsigned;
    assert Power256(4) == 256 * (256 * (256 * (256 * Power256(0)))) == 0x1_0000_0000;
    assert Power256(8) == 256 * (256 * (256 * (256 * Power256(4))));
    UnsignedRoundTrip(lsn, 8);
  }

  lemma HeadFields(r: LogRecord, d: seq<Byte>)
    requires Loggable(r) && |d| >= 25 && d[..25] == Head(r)
    ensures GetUnsigned(d[0..8]) == r.lsn && GetI32(d[8..12]) == r.txnId && ByteType(d[12]) == r.kind
    ensures GetI32(d[13..17]) == r.tableId && GetI32(d[17..21]) == r.rid.page && GetI32(d[21..25]) == r.rid.slot
  {
    hide PutUnsigned, GetUnsigned, PutI32, GetI32;
    var h := Head(r);
    assert d[0..8] == d[..25][0..8] == h[0..8] == PutUnsigned(r.lsn, 8);
    assert d[8..12] == d[..25][8..12] == h[8..12] == PutI32(r.txnId);
    assert d[12] == d[..25][12] == h[12] == TypeByte(r.kind);
    assert d[13..17] == d[..25][13..17] == h[13..17] == PutI32(r.tableId);
    assert d[17..21] == d[..25][17..21] == h[17..21] == PutI32(r.rid.page);
    assert d[21..25] == d[..25][21..25] == h[21..25] == PutI32(r.rid.slot);
    LsnReads(r.lsn);
    I32RoundTrip(r.txnId);
    I32RoundTrip(r.tableId);
    I32RoundTrip(r.rid.page);
    I32RoundTrip(r.rid.slot);
  }

  /** A length and that many bytes, from a position that moves past them. */
  method ReadString(body: seq<Byte>, pos: nat, ghost s: Record, ghost rest: seq<Byte>) returns (out: Record, next: nat)
    requires pos <= |body| && body[pos..] == PutString(s) + rest && |s| < 0x1_0000_0000
    ensures out == s && next <= |body| && body[next..] == rest
  {
    hide PutUnsigned, GetUnsigned;
    assert body[pos..] == PutUnsigned(|s|, 4) + (s + rest);
    NextBytes(body, pos, PutUnsigned(|s|, 4), s + rest);
    LengthReads(|s|);
    var n := GetUnsigned(body[pos..pos + 4]);
    NextBytes(body, pos + 4, s, rest);
    out, next := body[pos + 4..pos + 4 + n], pos + 4 + n;
  }

  method DecodeBody(body: seq<Byte>, ghost r: LogRecord) returns (out: LogRecord)
    requires Loggable(r) && body == Body(r)
    ensures out == r
  {
    hide PutUnsigned, GetUnsigned, PutI32, GetI32, Head, PutString;
    ghost var strings := PutString(r.before) + PutString(r.after);
    assert body == Head(r) + strings;
    assert body[..25] == Head(r) && body[25..] == strings;
    HeadFields(r, body);
    var before, pos := ReadString(body, 25, r.before, PutString(r.after));
    assert body[pos..] == PutString(r.after) + [];
    var after, _ := ReadString(body, pos, r.after, []);
    out := LogRecord(GetUnsigned(body[0..8]), GetI32(body[8..12]), ByteType(body[12]), GetI32(body[13..17]),
                     RecordID(GetI32(body[17..21]), GetI32(body[21..25])), before, after);
  }

  /** A beginning of a frame, without its end. */
  ghost predicate Torn(tail: seq<Byte>) {
    tail == [] || exists r :: Loggable(r) && |tail| < |Frame(r)| && tail == Frame(r)[..|tail|]
  }

  /** Where reading stops: too short for a length, or for the length it has. */
  predicate Stops(tail: seq<Byte>) {
    |tail| < 4 || |tail| < 4 + GetUnsigned(tail[..4])
  }

  /** Reads the frames of a file up to one that is not all there. */
  method ReadAll(file: seq<Byte>, ghost rs: seq<LogRecord>, ghost tail: seq<Byte>) returns (records: seq<LogRecord>)
    requires AllLoggable(rs) && Stops(tail) && file == Frames(rs) + tail
    ensures records == rs
  {
    hide PutUnsigned, GetUnsigned, Loggable, Body, Frames;
    records := [];
    var pos := 0;
    assert rs[0..] == rs;
    assert file[0..] == file;
    while true
      invariant |records| <= |rs| && records == rs[..|records|] && 0 <= pos <= |file|
      invariant file[pos..] == Frames(rs[|records|..]) + tail
      decreases |rs| - |records|
    {
      ghost var left := rs[|records|..];
      if left == [] {
        NoFrames();
        assert file[pos..] == tail;
        assert |tail| >= 4 ==> file[pos..pos + 4] == tail[..4];
      } else {
        FramesFrom(left);
        assert left[1..] == rs[|records| + 1..];
        assert file[pos..] == PutUnsigned(|Body(left[0])|, 4) + (Body(left[0]) + (Frames(left[1..]) + tail));
        NextBytes(file, pos, PutUnsigned(|Body(left[0])|, 4), Body(left[0]) + (Frames(left[1..]) + tail));
        BodyLength(left[0]);
        NextBytes(file, pos + 4, Body(left[0]), Frames(left[1..]) + tail);
      }
      if pos + 4 > |file| {
        break;
      }
      var len := GetUnsigned(file[pos..pos + 4]);
      if pos + 4 + len > |file| {
        break;
      }
      var r := DecodeBody(file[pos + 4..pos + 4 + len], left[0]);
      records := records + [r];
      pos := pos + 4 + len;
    }
  }

  lemma BodyLength(r: LogRecord)
    requires Loggable(r)
    ensures GetUnsigned(PutUnsigned(|Body(r)|, 4)) == |Body(r)|
  {
    hide PutUnsigned, GetUnsigned;
    LengthReads(|Body(r)|);
  }

  /** A torn frame is too short for its length, or has none. */
  lemma TornStops(tail: seq<Byte>)
    requires Torn(tail)
    ensures Stops(tail)
  {
    hide PutUnsigned, GetUnsigned, Body, Loggable;
    if tail != [] && |tail| >= 4 {
      var r :| Loggable(r) && |tail| < |Frame(r)| && tail == Frame(r)[..|tail|];
      assert tail[..4] == Frame(r)[..4] == PutUnsigned(|Body(r)|, 4);
      BodyLength(r);
    }
  }

  lemma NothingTorn()
    ensures Torn([])
  {
  }

  lemma PrefixTorn(r: LogRecord, tail: seq<Byte>)
    requires Loggable(r) && |tail| < |Frame(r)| && tail == Frame(r)[..|tail|]
    ensures Torn(tail)
  {
  }

  // ----- Cut anywhere

  /** How many whole frames fit the first bytes of the log. */
  function WholeFrames(rs: seq<LogRecord>, cut: nat): (k: nat)
    requires AllLoggable(rs)
    ensures k <= |rs|
  {
    if rs == [] then 0
    else if |Frames(rs)| <= cut then |rs|
    else WholeFrames(rs[..|rs| - 1], cut)
  }

  lemma {:induction false} CutSplits(rs: seq<LogRecord>, cut: nat)
    requires AllLoggable(rs) && cut <= |Frames(rs)|
    ensures var k := WholeFrames(rs, cut);
      |Frames(rs[..k])| <= cut && Frames(rs)[..cut] == Frames(rs[..k]) + Frames(rs)[..cut][|Frames(rs[..k])|..] && Torn(Frames(rs)[..cut][|Frames(rs[..k])|..])
  {
    hide Frame, Frames, Loggable, Torn;
    NothingTorn();
    if rs == [] {
      NoFrames();
      assert rs[..0] == [];
    } else {
      var n := |rs| - 1;
      assert rs[..|rs|] == rs;
      assert rs == rs[..n] + [rs[n]];
      FramesSnoc(rs[..n], rs[n]);
      if |Frames(rs[..n])| <= cut < |Frames(rs)| {
        LastWhole(rs, cut);
        LastCut(Frames(rs[..n]), rs[n], cut);
      } else if cut < |Frames(rs[..n])| {
        CutSplits(rs[..n], cut);
        assert Frames(rs)[..cut] == Frames(rs[..n])[..cut];
        assert rs[..n][..WholeFrames(rs[..n], cut)] == rs[..WholeFrames(rs, cut)];
      }
    }
  }

  lemma LastCut(before: seq<Byte>, r: LogRecord, cut: nat)
    requires Loggable(r) && |before| <= cut < |before| + |Frame(r)|
    ensures (before + Frame(r))[..cut] == before + (before + Frame(r))[..cut][|before|..]
    ensures Torn((before + Frame(r))[..cut][|before|..])
  {
    hide Frame, Loggable, Torn;
    PrefixTorn(r, (before + Frame(r))[..cut][|before|..]);
  }

  lemma LastWhole(rs: seq<LogRecord>, cut: nat)
    requires AllLoggable(rs) && rs != [] && |Frames(rs[..|rs| - 1])| <= cut < |Frames(rs)|
    ensures WholeFrames(rs, cut) == |rs| - 1
  {
    if |rs| > 1 {
      assert rs[..|rs| - 1] != [];
    }
  }

  /** Whatever part of the log has reached the disk: exactly the records that are wholly there
      are read back. */
  method ReadCut(rs: seq<LogRecord>, cut: nat) returns (records: seq<LogRecord>)
    requires AllLoggable(rs) && cut <= |Frames(rs)|
    ensures records == rs[..WholeFrames(rs, cut)]
  {
    hide Frames, Torn, Loggable;
    var k := WholeFrames(rs, cut);
    CutSplits(rs, cut);
    var file := Frames(rs)[..cut];
    TornStops(file[|Frames(rs[..k])|..]);
    records := ReadAll(file, rs[..k], file[|Frames(rs[..k])|..]);
  }

  lemma Stamped(r: LogRecord, lsn: nat)
    requires Loggable(r) && lsn < WORD
    ensures Loggable(r.(lsn := lsn))
  {
  }

  lemma {:induction false} PrefixValue(log: Log, k: nat, n: nat, base: Contents, rid: RecordID)
    requires n <= k <= |log|
    ensures Recovery.Value(log[..k], n, base, rid) == Recovery.Value(log, n, base, rid)
  {
    if n > 0 {
      PrefixValue(log, k, n - 1, base, rid);
    }
  }

  /** What a crash leaves of a log is a log that recovery accepts. */
  lemma PrefixIsLog(log: Log, k: nat, base: Contents)
    requires LogOk(log, base) && k <= |log|
    ensures LogOk(log[..k], base)
  {
    hide Recovery.Value;
    forall i | 0 <= i < k
      ensures RecordOk(log[..k], base, i)
    {
      assert RecordOk(log, base, i);
      PrefixValue(log, k, i, base, log[i].rid);
    }
    forall i, j | 0 <= i < j < k
      ensures LockOrder(log[..k], i, j)
    {
      assert LockOrder(log, i, j);
    }
  }

  // ----- The log object

  /** Records that a log can hold: their LSNs rise. */
  ghost predicate Rising(rs: seq<LogRecord>) {
    && AllLoggable(rs) && (forall i :: 0 <= i < |rs| ==> 0 < rs[i].lsn)
    && forall i, j :: 0 <= i < j < |rs| ==> rs[i].lsn < rs[j].lsn
  }

  ghost predicate Below(rs: seq<LogRecord>, lsn: nat) {
    lsn > 0 && forall i :: 0 <= i < |rs| ==> rs[i].lsn < lsn
  }

  lemma RisingSnoc(rs: seq<LogRecord>, r: LogRecord)
    requires Rising(rs) && Loggable(r) && Below(rs, r.lsn)
    ensures Rising(rs + [r]) && Below(rs + [r], r.lsn + 1) && Below(rs, r.lsn + 1)
  {
  }

  /** The file holds the readable records and what reading stops at. */
  ghost predicate LogFile(file: seq<Byte>, nextLsn: nat, records: seq<LogRecord>, tail: seq<Byte>) {
    Rising(records) && Below(records, nextLsn) && file == Frames(records) + tail && Stops(tail)
  }

  lemma Appended(file: seq<Byte>, nextLsn: nat, records: seq<LogRecord>, tail: seq<Byte>, r: LogRecord)
    requires LogFile(file, nextLsn, records, tail) && Loggable(r) && r.lsn == nextLsn
    ensures tail == [] ==> LogFile(file + Frame(r), nextLsn + 1, records + [r], [])
    ensures Stops(tail + Frame(r)) ==> LogFile(file + Frame(r), nextLsn + 1, records, tail + Frame(r))
  {
    hide Frame, Frames, Loggable;
    RisingSnoc(records, r);
    FramesSnoc(records, r);
    assert file + Frame(r) == Frames(records) + (tail + Frame(r));
    if tail == [] {
      assert file + Frame(r) == Frames(records + [r]) + [];
    }
  }

  class Wal {
    var file: seq<Byte>
    var nextLsn: nat
    ghost var records: seq<LogRecord>
    ghost var tail: seq<Byte>

    ghost predicate Valid()
      reads this
    {
      LogFile(file, nextLsn, records, tail)
    }

    /** Opens a file left by an earlier log, whatever part of its last frame is missing. LSNs
        go on after the last readable record. */
    constructor (file: seq<Byte>, ghost records: seq<LogRecord>, ghost tail: seq<Byte>)
      requires Rising(records) && file == Frames(records) + tail && Stops(tail)
      ensures Valid() && this.records == records && this.tail == tail && this.file == file
      ensures nextLsn == if records == [] then 1 else records[|records| - 1].lsn + 1
    {
      hide Frame, Frames, Loggable, Stops;
      this.file, this.records, this.tail, nextLsn := file, records, tail, 1;
      new;
      var existing := ReadAll(file, records, tail);
      var i := 0;
      while i < |existing|
        invariant 0 <= i <= |existing| && nextLsn == if i == 0 then 1 else existing[i - 1].lsn + 1
        invariant this.file == file && this.records == records && this.tail == tail
      {
        if existing[i].lsn >= nextLsn {
          nextLsn := existing[i].lsn + 1;
        }
        i := i + 1;
      }
    }

    /** Appends at the end of the file. The record can be read back if the file ended with a
        whole record; otherwise it only lengthens what reading stops at. */
    method Append(record: LogRecord) returns (lsn: nat)
      requires Valid() && Loggable(record) && nextLsn < WORD
      modifies this
      ensures lsn == old(nextLsn) && nextLsn == lsn + 1 && Loggable(record.(lsn := lsn))
      ensures file == old(file) + Frame(record.(lsn := lsn))
      ensures old(tail) == [] ==> Valid() && records == old(records) + [record.(lsn := lsn)] && tail == []
      ensures old(tail) != [] ==> records == old(records) && tail == old(tail) + Frame(record.(lsn := lsn)) && (Stops(tail) ==> Valid())
    {
      hide LogFile, Frame, Loggable, Stops;
      lsn := nextLsn;
      var stamped := record.(lsn := lsn);
      Stamped(record, lsn);
      Appended(file, nextLsn, records, tail, stamped);
      nextLsn := nextLsn + 1;
      file := file + Frame(stamped);
      if tail == [] {
        records := records + [stamped];
      } else {
        tail := tail + Frame(stamped);
      }
    }

    method Records() returns (out: seq<LogRecord>)
      requires Valid()
      ensures out == records
    {
      out := ReadAll(file, records, tail);
    }

    /** Empties the file; LSNs start at 1 again. */
    method Reset()
      modifies this
      ensures Valid() && records == [] && tail == [] && nextLsn == 1 && file == []
    {
      file, nextLsn, records, tail := [], 1, [], [];
      NoFrames();
    }
  }

  // ----- Opening a database after a crash

  /** Opening reads the log for recovery and then empties it, but not if no record could be
      read. So new records are readable exactly when the crash left nothing of the log, or at
      least its first record. */
  method Reopen(rs: seq<LogRecord>, cut: nat) returns (wal: Wal, recovered: seq<LogRecord>)
    requires Rising(rs) && cut <= |Frames(rs)|
    ensures fresh(wal) && wal.Valid() && wal.records == [] && wal.nextLsn == 1
    ensures recovered == rs[..WholeFrames(rs, cut)]
    ensures wal.tail == [] <==> cut == 0 || |Frame(rs[0])| <= cut
    ensures wal.tail == if recovered == [] then Frames(rs)[..cut] else []
  {
    hide Frame, Frames, Torn, Loggable, Stops;
    var k := WholeFrames(rs, cut);
    CutSplits(rs, cut);
    var file := Frames(rs)[..cut];
    ghost var tail := file[|Frames(rs[..k])|..];
    TornStops(tail);
    FirstWhole(rs, cut);
    NoFrames();
    wal := new Wal(file, rs[..k], tail);
    recovered := wal.Records();
    if recovered == [] {
      return;
    }
    wal.Reset();
  }

  lemma {:induction false} FirstWhole(rs: seq<LogRecord>, cut: nat)
    requires AllLoggable(rs) && cut <= |Frames(rs)|
    ensures WholeFrames(rs, cut) == 0 <==> rs == [] || cut < |Frame(rs[0])|
    ensures rs == [] ==> cut == 0
  {
    hide Frame, Loggable;
    if rs != [] {
      var n := |rs| - 1;
      FramesFrom(rs);
      assert n == 0 ==> rs[..n] == [] && Frames(rs) == Frame(rs[0]);
      if n > 0 {
        if cut <= |Frames(rs[..n])| {
          FirstWhole(rs[..n], cut);
        } else {
          LongerPrefix(rs[..n], cut);
          FramesFrom(rs[..n]);
        }
      }
    }
  }

  lemma LongerPrefix(rs: seq<LogRecord>, cut: nat)
    requires AllLoggable(rs) && |Frames(rs)| < cut
    ensures WholeFrames(rs, cut) == |rs|
  {
  }

  /** The number of values of one, two or three bytes. */
  function Scale(k: nat): (p: nat)
    requires 1 <= k <= 3
    ensures p > 0
  {
    if k == 1 then 256 else if k == 2 then 65536 else 16777216
  }

  /** The length that reading takes from the beginning of one frame and the frame behind it. */
  function TornLength(first: LogRecord, cut: nat, next: LogRecord): nat
    requires Loggable(first) && Loggable(next) && 0 < cut
  {
    if cut >= 4 then |Body(first)| else |Body(first)| % Scale(cut) + Scale(cut) * (|Body(next)| % Scale(4 - cut))
  }

  lemma {:induction false} UnsignedConcat(a: seq<Byte>, b: seq<Byte>)
    ensures GetUnsigned(a + b) == GetUnsigned(a) + Power256(|a|) * GetUnsigned(b)
  {
    if a == [] {
      assert a + b == b;
    } else {
      UnsignedConcat(a[1..], b);
      assert (a + b)[1..] == a[1..] + b;
      assert 256 * (Power256(|a| - 1) * GetUnsigned(b)) == Power256(|a|) * GetUnsigned(b);
    }
  }

  lemma {:induction false} PrefixBytes(n: nat, k: nat, m: nat)
    requires k <= m
    ensures PutUnsigned(n, m)[..k] == PutUnsigned(n, k)
  {
    if k > 0 {
      PrefixBytes(n / 256, k - 1, m - 1);
    }
  }

  lemma ScaleIsPower(k: nat)
    requires 1 <= k <= 3
    ensures Power256(k) == Scale(k)
  {
    assert Power256(1) == 256 * Power256(0) && Power256(2) == 256 * Power256(1) && Power256(3) == 256 * Power256(2);
  }

  lemma PrefixReads(n: nat, k: nat)
    requires 1 <= k <= 3
    ensures GetUnsigned(PutUnsigned(n, 4)[..k]) == n % Scale(k)
  {
    hide PutUnsigned, GetUnsigned;
    PrefixBytes(n, k, 4);
    if k == 1 {
      OneByte(n);
    } else if k == 2 {
      TwoBytes(n);
    } else {
      ThreeBytes(n);
    }
  }

  lemma OneByte(n: nat)
    ensures GetUnsigned(PutUnsigned(n, 1)) == n % 256
  {
    assert PutUnsigned(n, 1) == [n % 256];
  }

  lemma FirstByte(n: nat, k: nat)
    ensures GetUnsigned(PutUnsigned(n, k + 1)) == n % 256 + 256 * GetUnsigned(PutUnsigned(n / 256, k))
  {
    assert PutUnsigned(n, k + 1)[1..] == PutUnsigned(n / 256, k);
  }

  lemma TwoBytes(n: nat)
    ensures GetUnsigned(PutUnsigned(n, 2)) == n % 65536
  {
    hide PutUnsigned, GetUnsigned;
    FirstByte(n, 1);
    OneByte(n / 256);
  }

  lemma ThreeBytes(n: nat)
    ensures GetUnsigned(PutUnsigned(n, 3)) == n % 16777216
  {
    hide PutUnsigned, GetUnsigned;
    FirstByte(n, 2);
    TwoBytes(n / 256);
  }

  /** A record appended to the beginning of a frame goes unread if and only if the length that is
      read reaches beyond it. */
  lemma SwallowedIff(first: LogRecord, cut: nat, next: LogRecord)
    requires Loggable(first) && Loggable(next) && 0 < cut < |Frame(first)|
    ensures Stops(Frame(first)[..cut] + Frame(next)) <==> cut + |Frame(next)| < 4 + TornLength(first, cut, next)
  {
    hide PutUnsigned, GetUnsigned, Power256, Body, Loggable;
    var file := Frame(first)[..cut] + Frame(next);
    var n1, n2 := PutUnsigned(|Body(first)|, 4), PutUnsigned(|Body(next)|, 4);
    if cut >= 4 {
      assert file[..4] == Frame(first)[..4] == n1;
      BodyLength(first);
    } else {
      assert Frame(first)[..cut] == n1[..cut] && Frame(next)[..4 - cut] == n2[..4 - cut];
      assert file[..4] == n1[..cut] + n2[..4 - cut];
      UnsignedConcat(n1[..cut], n2[..4 - cut]);
      ScaleIsPower(cut);
      PrefixReads(|Body(first)|, cut);
      PrefixReads(|Body(next)|, 4 - cut);
    }
  }

  /** With one byte of the log left that is so for every record of common size: its length is read
      256 times too long. */
  lemma OneByteSwallows(first: LogRecord, next: LogRecord)
    requires Loggable(first) && Loggable(next) && |Body(next)| < 0x100_0000
    ensures 1 + |Frame(next)| < 4 + TornLength(first, 1, next)
  {
    hide Loggable, Body;
  }

  /** After a crash that leaves only a torn beginning of a log, the next transaction's commit is
      logged but not read back. */
  method CommitLost(rs: seq<LogRecord>, cut: nat, commit: LogRecord) returns (readBack: seq<LogRecord>)
    requires Rising(rs) && rs != [] && Loggable(commit) && 0 < cut < |Frame(rs[0])|
    requires cut + |Frame(commit)| < 4 + TornLength(rs[0], cut, commit)
    ensures readBack == []
  {
    hide Frame, Frames, Loggable, Body, Stops, TornLength;
    FramesFrom(rs);
    var wal, recovered := Reopen(rs, cut);
    NoFrames();
    assert Frames(rs)[..cut] == Frame(rs[0])[..cut];
    var lsn := wal.Append(commit);
    var stamped := commit.(lsn := lsn);
    SameLength(rs[0], cut, commit, lsn);
    SwallowedIff(rs[0], cut, stamped);
    readBack := wal.Records();
  }

  lemma SameLength(first: LogRecord, cut: nat, r: LogRecord, lsn: nat)
    requires Loggable(first) && Loggable(r) && Loggable(r.(lsn := lsn)) && 0 < cut
    ensures |Frame(r.(lsn := lsn))| == |Frame(r)| && TornLength(first, cut, r.(lsn := lsn)) == TornLength(first, cut, r)
  {
  }
}
