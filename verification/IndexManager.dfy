/** Secondary indexes: a B+ tree over a row's key columns, with a Bloom filter in front of
    equality lookups. */
module IndexManager {
  import opened Values
  import opened Bytes
  import opened NodeCodec
  import opened DiskTreeModel
  import opened DiskBPlusTree
  import opened DiskTreeRuns
  import Joins

  // ----- The Bloom filter

  const PRIME: nat := 1099511628211

  const SEED1: nat := 1469598103934665603

  /** Exclusive or, bit by bit. */
  function Xor(a: nat, b: nat): nat {
    if b == 0 then a else if a == 0 then b
    else (if a % 2 != b % 2 then 1 else 0) + 2 * Xor(a / 2, b / 2)
  }

  function XorByte(h: nat, b: Byte): (r: nat)
    ensures r < WORD
  {
    (h - h % 256 + Xor(h % 256, b)) % WORD
  }

  /** FNV-1a over 64 bits. */
  function Fnv1a(data: seq<Byte>, seed: nat): (h: nat) {
    if data == [] then seed else XorByte(Fnv1a(data[..|data| - 1], seed), data[|data| - 1]) * PRIME % WORD
  }

  /** The bit the i-th hash of a key selects, by double hashing with an odd step. */
  function Locate(key: seq<Byte>, i: nat, numBits: nat): (b: nat)
    requires numBits > 0
    ensures b < numBits
  {
    var h1 := Fnv1a(key, SEED1);
    var h2 := Fnv1a(key, PRIME);
    var step := if h2 % 2 == 0 then h2 + 1 else h2;
    (h1 + i * step) % WORD % numBits
  }

  class BloomFilter {
    const numBits: nat
    const numHashes: nat
    const bits: array<bool>

    ghost predicate Valid()
      reads this
    {
      bits.Length == numBits && numBits > 0
    }

    /** Every bit the key's hashes select is set. */
    ghost predicate MayHold(key: seq<Byte>)
      requires Valid()
      reads this, bits
    {
      forall i :: 0 <= i < numHashes ==> bits[Locate(key, i, numBits)]
    }

    constructor (expectedItems: nat, numHashes: nat)
      ensures Valid() && fresh(bits)
      ensures this.numHashes == if numHashes == 0 then 1 else numHashes
      ensures expectedItems * this.numHashes * 2 >= 64 && expectedItems * this.numHashes * 2 % 64 == 0 ==> numBits == expectedItems * this.numHashes * 2
      ensures forall b :: 0 <= b < bits.Length ==> !bits[b]
    {
      var k := if numHashes == 0 then 1 else numHashes;
      var wanted := (if expectedItems == 0 then 1 else expectedItems) * k * 2;
      var words := ((if wanted < 64 then 64 else wanted) + 63) / 64;
      this.numHashes := k;
      numBits := words * 64;
      bits := new bool[words * 64](_ => false);
    }

    method Add(key: seq<Byte>)
      requires Valid()
      modifies bits
      ensures MayHold(key) && forall k :: old(MayHold(k)) ==> MayHold(k)
      ensures forall b :: 0 <= b < numBits ==>
                            (bits[b] <==> old(bits[b]) || exists i :: 0 <= i < numHashes && Locate(key, i, numBits) == b)
    {
      hide Locate;
      for i := 0 to numHashes
        invariant forall b :: 0 <= b < numBits ==>
                                (bits[b] <==> old(bits[b]) || exists j :: 0 <= j < i && Locate(key, j, numBits) == b)
      {
        bits[Locate(key, i, numBits)] := true;
      }
    }

    method MightContain(key: seq<Byte>) returns (maybe: bool)
      requires Valid()
      ensures maybe == MayHold(key)
    {
      hide Locate;
      for i := 0 to numHashes
        invariant forall j :: 0 <= j < i ==> bits[Locate(key, j, numBits)]
      {
        if !bits[Locate(key, i, numBits)] {
          return false;
        }
      }
      return true;
    }
  }

  // ----- Index keys

  /** The bytes a key is hashed by; a float is hashed like a NULL. */
  function KeyBytes(v: Value): seq<Byte> {
    match v
    case Int(i) => PutUnsigned(i % WORD, 8)
    case Bool(b) => [if b then 1 else 0]
    case Text(t) => seq(|t|, i requires 0 <= i < |t| => t[i] as int % 256)
    case Null => []
    case Double(_) => []
  }

  /** Each column's type tag and text, separated. */
  function EncodeKey(picked: seq<Value>, show: real -> string): string {
    if picked == [] then []
    else Joins.KeyText(picked[0], show) + "\U{001F}" + EncodeKey(picked[1..], show)
  }

  function KeyFromValues(picked: seq<Value>, show: real -> string): Value {
    if |picked| == 1 then picked[0] else Text(EncodeKey(picked, show))
  }

  function Picked(columns: seq<int>, row: Row): (p: seq<Value>)
    ensures |p| == |columns|
    ensures forall i :: 0 <= i < |columns| ==> p[i] == if 0 <= columns[i] < |row| then row[columns[i]] else Null
  {
    seq(|columns|, i requires 0 <= i < |columns| => if 0 <= columns[i] < |row| then row[columns[i]] else Null)
  }

  function KeyOf(columns: seq<int>, row: Row, show: real -> string): Value {
    KeyFromValues(Picked(columns, row), show)
  }

  // ----- Two keys that share no bit

  lemma XorZero(h: nat)
    requires h < WORD
    ensures XorByte(h, 0) == h
  {
  }

  lemma ByteStep(data: seq<Byte>, seed: nat, b: Byte, h: nat, x: nat, next: nat)
    requires Fnv1a(data, seed) == h && XorByte(h, b) == x && x * PRIME % WORD == next
    ensures Fnv1a(data + [b], seed) == next
  {
    assert (data + [b])[..|data|] == data;
  }

  lemma ZeroStep(data: seq<Byte>, longer: seq<Byte>, seed: nat, h: nat, next: nat)
    requires Fnv1a(data, seed) == h < WORD && h * PRIME % WORD == next && longer == data + [0]
    ensures Fnv1a(longer, seed) == next
  {
    hide XorByte, Fnv1a;
    XorZero(h);
    ByteStep(data, seed, 0, h, h, next);
  }

  lemma XorBits()
    ensures Xor(131, 5) == 134 && Xor(179, 5) == 182
  {
    assert Xor(65, 2) == 1 + 2 * Xor(32, 1) && Xor(32, 1) == 1 + 2 * Xor(16, 0);
    assert Xor(89, 2) == 1 + 2 * Xor(44, 1) && Xor(44, 1) == 1 + 2 * Xor(22, 0);
  }

  lemma XorFive()
    ensures XorByte(SEED1, 5) == 1469598103934665606 && XorByte(PRIME, 5) == 1099511628214
  {
    hide Xor;
    XorBits();
    assert SEED1 % 256 == 131 && PRIME % 256 == 179;
  }

  lemma HashOfFive()
    ensures Fnv1a([5, 0, 0, 0, 0, 0, 0, 0], SEED1) == 11884544879442538566
  {
    hide Fnv1a, XorByte;
    XorFive();
    NoBytes(SEED1);
    assert [] + [5] == [5];
    ByteStep([], SEED1, 5, SEED1, 1469598103934665606, 4953166655188171954);
    ZeroStep([5], [5, 0], SEED1, 4953166655188171954, 11129314973775389302);
    ZeroStep([5, 0], [5, 0, 0], SEED1, 11129314973775389302, 14069445687553707650);
    ZeroStep([5, 0, 0], [5, 0, 0, 0], SEED1, 14069445687553707650, 1244201557793400550);
    ZeroStep([5, 0, 0, 0], [5, 0, 0, 0, 0], SEED1, 1244201557793400550, 11128921638392289490);
    ZeroStep([5, 0, 0, 0, 0], [5, 0, 0, 0, 0, 0], SEED1, 11128921638392289490, 17822770076275010774);
    ZeroStep([5, 0, 0, 0, 0, 0], [5, 0, 0, 0, 0, 0, 0], SEED1, 17822770076275010774, 2204630270960201634);
    ZeroStep([5, 0, 0, 0, 0, 0, 0], [5, 0, 0, 0, 0, 0, 0, 0], SEED1, 2204630270960201634, 11884544879442538566);
  }

  lemma StepOfFive()
    ensures Fnv1a([5, 0, 0, 0, 0, 0, 0, 0], PRIME) == 17319342752423007350
  {
    hide Fnv1a, XorByte;
    XorFive();
    NoBytes(PRIME);
    assert [] + [5] == [5];
    ByteStep([], PRIME, 5, PRIME, 1099511628214, 959873651238978);
    ZeroStep([5], [5, 0], PRIME, 959873651238978, 627034988729116710);
    ZeroStep([5, 0], [5, 0, 0], PRIME, 627034988729116710, 13400211138154444946);
    ZeroStep([5, 0, 0], [5, 0, 0, 0], PRIME, 13400211138154444946, 17050319516366577686);
    ZeroStep([5, 0, 0, 0], [5, 0, 0, 0, 0], PRIME, 17050319516366577686, 190010669144212834);
    ZeroStep([5, 0, 0, 0, 0], [5, 0, 0, 0, 0, 0], PRIME, 190010669144212834, 6563336900703757702);
    ZeroStep([5, 0, 0, 0, 0, 0], [5, 0, 0, 0, 0, 0, 0], PRIME, 6563336900703757702, 7994515682260337330);
    ZeroStep([5, 0, 0, 0, 0, 0, 0], [5, 0, 0, 0, 0, 0, 0, 0], PRIME, 7994515682260337330, 17319342752423007350);
  }

  lemma NoBytes(seed: nat)
    ensures Fnv1a([], seed) == seed
  {
  }

  lemma {:induction false} ZeroBytes(n: nat)
    ensures PutUnsigned(0, n) == seq(n, _ => 0)
  {
    if n > 0 {
      ZeroBytes(n - 1);
    }
  }

  lemma BytesOfFive()
    ensures KeyBytes(Int(5)) == [5, 0, 0, 0, 0, 0, 0, 0]
  {
    assert PutUnsigned(5, 8) == [5] + PutUnsigned(0, 7);
    hide PutUnsigned;
    ZeroBytes(7);
  }

  /** Where a key goes, from its two hashes: after i steps, that is i turns of the 64-bit circle
      and n of the filter's, here. */
  lemma LocateFrom(key: seq<Byte>, i: nat, h1: nat, h2: nat, n: nat, b: nat)
    requires Fnv1a(key, SEED1) == h1 && Fnv1a(key, PRIME) == h2
    requires h1 + i * (if h2 % 2 == 0 then h2 + 1 else h2) - i * 0x1_0000_0000_0000_0000 == n * 32768 + b < 0x1_0000_0000_0000_0000 && b < 32768
    ensures Locate(key, i, 32768) == b
  {
    hide Fnv1a;
    Turns(h1 + i * (if h2 % 2 == 0 then h2 + 1 else h2), i, n * 32768 + b);
    SmallTurns(n, b);
  }

  lemma Turns(x: nat, q: nat, r: nat)
    requires x - q * 0x1_0000_0000_0000_0000 == r < 0x1_0000_0000_0000_0000
    ensures x % WORD == r
  {
  }

  lemma SmallTurns(n: nat, b: nat)
    requires b < 32768
    ensures (n * 32768 + b) % 32768 == b
  {
  }

  lemma BitOfFive(i: nat, n: nat, b: nat)
    requires 11884544879442538566 + i * 17319342752423007351 - i * 0x1_0000_0000_0000_0000 == n * 32768 + b < 0x1_0000_0000_0000_0000 && b < 32768
    ensures Locate(KeyBytes(Int(5)), i, 32768) == b
  {
    hide Fnv1a, Locate, KeyBytes;
    BytesOfFive();
    HashOfFive();
    StepOfFive();
    LocateFrom([5, 0, 0, 0, 0, 0, 0, 0], i, 11884544879442538566, 17319342752423007350, n, b);
  }

  /** The first bit of a key without bytes, such as a float, is none of the integer 5's. */
  lemma FilterBits()
    ensures forall i :: 0 <= i < 4 ==> Locate(KeyBytes(Int(5)), i, 32768) != Locate([], 0, 32768)
  {
    hide Fnv1a, KeyBytes, Locate;
    NoBytes(SEED1);
    NoBytes(PRIME);
    LocateFrom([], 0, SEED1, PRIME, 44848574949178, 899);
    BitOfFive(0, 362687526838456, 12358);
    BitOfFive(1, 328281968937866, 1213);
    BitOfFive(2, 293876411037275, 22836);
    BitOfFive(3, 259470853136685, 11691);
    forall i | 0 <= i < 4 ensures Locate(KeyBytes(Int(5)), i, 32768) in {12358, 1213, 22836, 11691} {
      assert i in {0, 1, 2, 3};
    }
  }

  // ----- One index

  class Index {
    const columns: seq<int>
    const tree: DiskBPlusTree
    const bloom: BloomFilter

    ghost predicate Valid()
      reads this, tree, bloom, bloom.bits
    {
      && tree.Valid() && bloom.Valid()
      && forall e :: e in tree.Live() ==> bloom.MayHold(KeyBytes(e.key))
    }

    ghost function Live(): set<Entry>
      requires Valid()
      reads this, tree, bloom, bloom.bits
    {
      tree.Live()
    }

    /** What a lookup finds: the tree's records, if the filter may hold the key's bytes. */
    ghost function Answer(key: Value): seq<RecordID>
      requires Valid()
      reads this, tree, bloom, bloom.bits
    {
      if bloom.MayHold(KeyBytes(key)) then Scan(tree.Run(), Some(key), Some(key)) else []
    }

    constructor (columns: seq<int>, tree: DiskBPlusTree)
      requires tree.Valid() && tree.Live() == {}
      ensures Valid() && Live() == {} && this.columns == columns && this.tree == tree && fresh(bloom) && fresh(bloom.bits)
      ensures bloom.numBits == 32768 && bloom.numHashes == 4 && forall b :: 0 <= b < 32768 ==> !bloom.bits[b]
    {
      this.columns := columns;
      this.tree := tree;
      bloom := new BloomFilter(4096, 4);
    }

    method Add(key: Value, rid: RecordID)
      requires Valid() && EntryOk(tree.kind, Entry(key, rid))
      requires tree.numPages + |tree.levels| + 1 <= 0x7FFF_FFFF
      modifies tree, bloom.bits
      ensures Valid() && Live() == old(Live()) + {Entry(key, rid)}
      ensures forall b :: 0 <= b < bloom.numBits ==>
                            (bloom.bits[b] <==> old(bloom.bits[b]) || exists i :: 0 <= i < bloom.numHashes && Locate(KeyBytes(key), i, bloom.numBits) == b)
    {
      hide TreeOk, Heights, Flatten, Fits, PageImage, EntryOk, KeyBytes, Locate;
      tree.Insert(key, rid);
      bloom.Add(KeyBytes(key));
    }

    /** Removes the entry; the filter keeps its bits. */
    method Remove(key: Value, rid: RecordID) returns (found: bool)
      requires Valid() && OfKind(tree.kind, key)
      modifies tree
      ensures Valid() && Live() == old(Live()) - {Entry(key, rid)}
      ensures found == (Entry(key, rid) in old(Live()))
    {
      hide TreeOk, Heights, Flatten, Fits, PageImage, EntryOk, KeyBytes;
      found := tree.Erase(key, rid);
    }

    /** The tree's answer, unless the filter cannot hold the key's bytes. For a key of the
        column's type the filter only ever spares a search that would find nothing. */
    method Lookup(key: Value) returns (rids: seq<RecordID>)
      requires Valid() && Comparable(tree.kind, key)
      ensures rids == Answer(key)
      ensures OfKind(tree.kind, key) ==> rids == Scan(tree.Run(), Some(key), Some(key))
    {
      hide TreeOk, Heights, Flatten, Fits, PageImage, EntryOk, KeyBytes, OfKind, Comparable, Scan;
      var maybe := bloom.MightContain(KeyBytes(key));
      if !maybe {
        if OfKind(tree.kind, key) {
          NothingHeld(tree, key);
        }
        return [];
      }
      rids := tree.Lookup(key);
    }
  }

  lemma NothingHeld(tree: DiskBPlusTree, key: Value)
    requires tree.Valid() && OfKind(tree.kind, key)
    requires forall e :: e in tree.Live() ==> KeyBytes(e.key) != KeyBytes(key)
    ensures Scan(tree.Run(), Some(key), Some(key)) == []
  {
    hide TreeOk, Heights, Flatten, Fits, PageImage, OfKind, Scan, KeyBytes, ValueLess;
    RunLists(tree);
    var run := tree.Run();
    forall i | 0 <= i < |run|
      ensures !InRange(run[i], Some(key), Some(key))
    {
      assert run[i] in tree.Live();
      assert EntryOk(tree.kind, run[i]);
      ValueLessTotal(tree.kind, run[i].key, key);
    }
    ScanNone(run, Some(key), Some(key));
  }
}
