/** IEEE 754 binary64 bit patterns of the reals they stand for. Infinities and NaNs stand for no
    real. */
module Doubles {
  import opened Bytes

  const MANTISSAS: nat := 0x10_0000_0000_0000

  function TwoTo(n: nat): (r: real)
    ensures r > 0.0
  {
    if n == 0 then 1.0 else 2.0 * TwoTo(n - 1)
  }

  function Scaled(m: nat, e: int): real {
    if e >= 0 then (m as real) * TwoTo(e) else (m as real) / TwoTo(-e)
  }

  predicate IsFinite(bits: nat) {
    bits / MANTISSAS % 2048 != 2047
  }

  /** Sign, eleven bits of exponent, 52 bits of mantissa. */
  function FromBits(bits: nat): real {
    var e, m := bits / MANTISSAS % 2048, bits % MANTISSAS;
    var magnitude := if e == 0 then Scaled(m, -1074) else Scaled(MANTISSAS + m, e - 1075);
    if bits / (MANTISSAS * 2048) % 2 == 1 then -magnitude else magnitude
  }

  predicate Represents(bits: nat, d: real) {
    IsFinite(bits) && FromBits(bits) == d
  }

  /** The reals a double can hold. */
  predicate IsDouble(d: real) {
    exists bits :: 0 <= bits < WORD && Represents(bits, d)
  }

  /** The first pattern from n on that stands for d. */
  function FirstPattern(d: real, n: nat): (bits: nat)
    requires n <= WORD
    ensures bits < WORD
    decreases WORD - n
  {
    if n == WORD then 0 else if Represents(n, d) then n else FirstPattern(d, n + 1)
  }

  lemma {:induction false} FirstPatternFinds(d: real, n: nat, bits: nat)
    requires n <= bits < WORD && Represents(bits, d)
    ensures Represents(FirstPattern(d, n), d)
    decreases WORD - n
  {
    hide Represents;
    if !Represents(n, d) {
      FirstPatternFinds(d, n + 1, bits);
    }
  }

  /** A double's bit pattern; zero is stored as positive zero. */
  function ToBits(d: real): (bits: nat)
    ensures bits < WORD
  {
    FirstPattern(d, 0)
  }

  lemma PowerIsWord()
    ensures Power256(8) == WORD
  {
    assert Power256(4) == 256 * (256 * (256 * (256 * Power256(0)))) == 0x1_0000_0000;
    assert Power256(8) == 256 * (256 * (256 * (256 * Power256(4))));
  }

  /** Reading a stored double gives the double back. */
  lemma BitsRoundTrip(d: real)
    requires IsDouble(d)
    ensures FromBits(ToBits(d)) == d
  {
    hide FromBits, IsFinite, FirstPattern;
    var bits :| 0 <= bits < WORD && Represents(bits, d);
    FirstPatternFinds(d, 0, bits);
  }
}
