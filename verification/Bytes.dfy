/** Bytes of a page: little-endian numbers, slices, and storing into a page buffer. */
module Bytes {
  const PAGE_SIZE: nat := 4096

  /** 64-bit words are numbers below this one. */
  const WORD: nat := 0x1_0000_0000_0000_0000

  type Byte = x: int | 0 <= x < 256

  predicate IsInt32(x: int) { -0x8000_0000 <= x < 0x8000_0000 }
  predicate IsInt64(x: int) { -0x8000_0000_0000_0000 <= x < 0x8000_0000_0000_0000 }

  function PutU16(x: nat): (r: seq<Byte>)
    requires x < 0x1_0000
    ensures |r| == 2
  {
    [x % 256, x / 256]
  }

  function GetU16(d: seq<Byte>): nat
    requires |d| == 2
  {
    (d[0] as int) + 256 * (d[1] as int)
  }

  /** Little-endian bytes of an unsigned number below 256^n. */
  function PutUnsigned(x: nat, n: nat): (r: seq<Byte>)
    ensures |r| == n
  {
    if n == 0 then [] else [x % 256] + PutUnsigned(x / 256, n - 1)
  }

  function GetUnsigned(d: seq<Byte>): nat {
    if d == [] then 0 else d[0] + 256 * GetUnsigned(d[1..])
  }

  function Power256(n: nat): nat {
    if n == 0 then 1 else 256 * Power256(n - 1)
  }

  lemma {:induction false} UnsignedRoundTrip(x: nat, n: nat)
    requires x < Power256(n)
    ensures GetUnsigned(PutUnsigned(x, n)) == x
  {
    if n > 0 {
      UnsignedRoundTrip(x / 256, n - 1);
      assert PutUnsigned(x, n)[1..] == PutUnsigned(x / 256, n - 1);
    }
  }

  function PutI32(x: int): (r: seq<Byte>)
    requires IsInt32(x)
    ensures |r| == 4
  {
    PutUnsigned(if x < 0 then x + 0x1_0000_0000 else x, 4)
  }

  function GetI32(d: seq<Byte>): int
    requires |d| == 4
  {
    var u := GetUnsigned(d);
    if u < 0x8000_0000 then u else u - 0x1_0000_0000
  }

  function PutI64(x: int): (r: seq<Byte>)
    requires IsInt64(x)
    ensures |r| == 8
  {
    PutUnsigned(if x < 0 then x + 0x1_0000_0000_0000_0000 else x, 8)
  }

  function GetI64(d: seq<Byte>): int
    requires |d| == 8
  {
    var u := GetUnsigned(d);
    if u < 0x8000_0000_0000_0000 then u else u - 0x1_0000_0000_0000_0000
  }

  lemma U16RoundTrip(x: nat)
    requires x < 0x1_0000
    ensures GetU16(PutU16(x)) == x
  {
  }

  lemma I32RoundTrip(x: int)
    requires IsInt32(x)
    ensures GetI32(PutI32(x)) == x
  {
    assert Power256(4) == 256 * (256 * (256 * (256 * Power256(0)))) == 0x1_0000_0000;
    UnsignedRoundTrip(if x < 0 then x + 0x1_0000_0000 else x, 4);
  }

  lemma I64RoundTrip(x: int)
    requires IsInt64(x)
    ensures GetI64(PutI64(x)) == x
  {
    assert Power256(8) == 256 * (256 * (256 * (256 * Power256(4))));
    assert Power256(4) == 256 * (256 * (256 * (256 * Power256(0))));
    UnsignedRoundTrip(if x < 0 then x + 0x1_0000_0000_0000_0000 else x, 8);
  }

  function Zeros(n: nat): (r: seq<Byte>)
    ensures |r| == n
  {
    seq(n, _ => 0)
  }

  method ClearedPage() returns (d: array<Byte>)
    ensures fresh(d) && d.Length == PAGE_SIZE && d[..] == [] + Zeros(PAGE_SIZE)
  {
    d := new Byte[PAGE_SIZE](_ => 0);
    assert d[..] == Zeros(PAGE_SIZE);
  }

  /** Stores bytes at an offset, leaving the rest of the page as it was. */
  method Put(d: array<Byte>, off: nat, bytes: seq<Byte>)
    requires off + |bytes| <= d.Length
    modifies d
    ensures d[..] == old(d[..off]) + bytes + old(d[off + |bytes|..])
  {
    var i := 0;
    while i < |bytes|
      invariant 0 <= i <= |bytes|
      invariant d[..off] == old(d[..off])
      invariant d[off..off + i] == bytes[..i]
      invariant d[off + i..] == old(d[off + i..])
    {
      d[off + i] := bytes[i];
      i := i + 1;
    }
    assert d[..] == d[..off] + d[off..off + i] + d[off + i..];
  }

  lemma SliceInside<T>(a: seq<T>, b: seq<T>, c: seq<T>, s: nat, n: nat)
    requires s + n <= |b|
    ensures (a + b + c)[|a| + s..|a| + s + n] == b[s..s + n]
  {
  }

  lemma SliceFront<T>(a: seq<T>, b: seq<T>, s: nat, n: nat)
    requires s + n <= |a|
    ensures (a + b)[s..s + n] == a[s..s + n]
  {
  }

  lemma SliceSlice<T>(s: seq<T>, lo: nat, hi: nat, a: nat, b: nat)
    requires lo <= hi <= |s| && a <= b <= hi - lo
    ensures s[lo..hi][a..b] == s[lo + a..lo + b]
  {
    var x, y := s[lo..hi][a..b], s[lo + a..lo + b];
    assert |x| == |y| && forall i :: 0 <= i < |x| ==> x[i] == y[i];
  }

  /** Equal prefixes have equal slices. */
  lemma SliceEarlier<T>(b: seq<T>, c: seq<T>, to: nat, lo: nat, hi: nat)
    requires lo <= hi <= to <= |b| && to <= |c| && c[..to] == b[..to]
    ensures c[lo..hi] == b[lo..hi]
  {
    assert forall k :: 0 <= k < to ==> c[k] == c[..to][k] == b[..to][k] == b[k];
  }

  /** Equal suffixes have equal slices. */
  lemma SliceLater<T>(b: seq<T>, c: seq<T>, from: nat, lo: nat, hi: nat)
    requires |b| == |c| && from <= lo <= hi <= |b| && c[from..] == b[from..]
    ensures c[lo..hi] == b[lo..hi]
  {
    assert forall k :: from <= k < |b| ==> c[k] == c[from..][k - from] == b[from..][k - from] == b[k];
  }
}
