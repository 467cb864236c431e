/** The padding of section 5.1.1 of FIPS 180-4, and the 64-bit length at its end. */
module Sha256Padding {
  import opened Bytes
  import opened Sha256

  function ToOctet(b: byte): Octet {
    (b as int) as Octet
  }

  function ToOctets(bytes: seq<byte>): (r: seq<Octet>)
    ensures |r| == |bytes|
    ensures forall i :: 0 <= i < |bytes| ==> r[i] == ToOctet(bytes[i])
  {
    seq(|bytes|, i requires 0 <= i < |bytes| => ToOctet(bytes[i]))
  }

  function Zeros(n: nat): (r: seq<Octet>)
    ensures |r| == n && forall i :: 0 <= i < n ==> r[i] == 0
  {
    seq(n, _ => 0)
  }

  /** The number of zero bytes: with the bit that ends the message, they fill a block up to the length. */
  function PadZeros(n: nat): nat {
    (119 - n % 64) % 64
  }

  /** The message, a one bit, zeros, and the length in bits as a 64-bit number. */
  function Pad(msg: seq<Octet>): (r: seq<Octet>)
    ensures |r| % 64 == 0
  {
    assert (|msg| + 1 + PadZeros(|msg|) + 8) % 64 == 0;
    msg + [0x80] + Zeros(PadZeros(|msg|)) + ToOctets(BigEndian(8 * |msg|, 8))
  }

  /** The SHA-256 hash of a message. */
  function Hash256(msg: seq<Octet>): (r: seq<Octet>)
    ensures |r| == 32
  {
    Digest(Fold(INITIAL, Pad(msg)))
  }

  /** Appending a block to whole blocks compresses once more. */
  lemma FoldBlock(s: State, msg: seq<Octet>, block: seq<Octet>)
    requires |msg| % 64 == 0 && |block| == 64
    ensures Fold(s, msg + block) == Compress(Fold(s, msg), block)
  {
    hide Compress;
    assert (msg + block)[..|msg|] == msg && (msg + block)[|msg|..] == block;
  }

  /** Padding as whole blocks: with fewer than 56 bytes left over one block is enough. */
  lemma PadOneBlock(done: seq<Octet>, rest: seq<Octet>)
    requires |done| % 64 == 0 && |rest| <= 55
    ensures Pad(done + rest)
         == done + (rest + [0x80] + Zeros(55 - |rest|) + ToOctets(BigEndian(8 * (|done| + |rest|), 8)))
  {
    assert PadZeros(|done + rest|) == 55 - |rest|;
    hide BigEndian;
  }

  /** Otherwise the zeros run through to the end of the block and fill most of another. */
  lemma PadTwoBlocks(done: seq<Octet>, rest: seq<Octet>)
    requires |done| % 64 == 0 && 55 < |rest| < 64
    ensures Pad(done + rest)
         == done + (rest + [0x80] + Zeros(63 - |rest|))
            + (Zeros(56) + ToOctets(BigEndian(8 * (|done| + |rest|), 8)))
  {
    assert PadZeros(|done + rest|) == 119 - |rest|;
    hide BigEndian;
    assert Zeros(119 - |rest|) == Zeros(63 - |rest|) + Zeros(56);
  }

  /** The value of little-endian digits in base 65536. */
  function Value(ds: seq<nat>): nat {
    if ds == [] then 0 else ds[0] + 65536 * Value(ds[1..])
  }

  lemma BigEndianPair(n: nat, k: nat)
    ensures BigEndian(n, k + 2) == BigEndian(n / 65536, k) + [(n % 65536 / 256) as byte, (n % 65536 % 256) as byte]
  {
    assert BigEndian(n, k + 2) == BigEndian(n / 256, k + 1) + [(n % 256) as byte];
    assert n / 256 / 256 == n / 65536 && n / 256 % 256 == n % 65536 / 256 && n % 65536 % 256 == n % 256;
  }

  function DigitBytes(d: nat): (r: seq<byte>)
    requires d < 65536
    ensures |r| == 2
  {
    [(d / 256) as byte, (d % 256) as byte]
  }

  predicate AreDigits(ds: seq<nat>) {
    forall i :: 0 <= i < |ds| ==> ds[i] < 65536
  }

  /** The bytes of all digits, the last digit first. */
  function DigitsBytes(ds: seq<nat>): (r: seq<byte>)
    requires AreDigits(ds)
    ensures |r| == 2 * |ds|
  {
    if ds == [] then [] else DigitsBytes(ds[1..]) + DigitBytes(ds[0])
  }

  /** They are the big-endian bytes of the value. */
  lemma {:induction false} DigitsAreBigEndian(ds: seq<nat>)
    requires AreDigits(ds)
    ensures DigitsBytes(ds) == BigEndian(Value(ds), 2 * |ds|)
  {
    if ds != [] {
      var v := Value(ds);
      assert v / 65536 == Value(ds[1..]) && v % 65536 == ds[0];
      hide BigEndian;
      BigEndianPair(v, 2 * |ds[1..]|);
      DigitsAreBigEndian(ds[1..]);
    }
  }

  /** Multiplying by eight, digit by digit: the three highest bits of a digit go into the next. */
  function TimesEight(ds: seq<nat>, carry: nat): seq<nat> {
    if ds == [] then [] else [(8 * ds[0] + carry) % 65536] + TimesEight(ds[1..], ds[0] / 8192)
  }

  lemma {:induction false} TimesEightValue(ds: seq<nat>, carry: nat, limit: nat)
    requires carry < 8 && AreDigits(ds)
    requires limit == Capacity(|ds|) && 8 * Value(ds) + carry < limit
    ensures |TimesEight(ds, carry)| == |ds| && Value(TimesEight(ds, carry)) == 8 * Value(ds) + carry
    ensures AreDigits(TimesEight(ds, carry))
    decreases |ds|
  {
    if ds != [] {
      var d, rest := ds[0], ds[1..];
      var low, next := (8 * d + carry) % 65536, d / 8192;
      assert 8 * d + carry == 65536 * next + low;
      assert low + 65536 * (8 * Value(rest) + next) == 8 * Value(ds) + carry;
      TimesEightValue(rest, next, Capacity(|rest|));
      assert ([low] + TimesEight(rest, next))[1..] == TimesEight(rest, next);
    }
  }

  /** The digit written next, and the carry that follows it. */
  lemma TimesEightStep(ds: seq<nat>, i: nat, carry: nat)
    requires i < |ds| && AreDigits(ds)
    ensures TimesEight(ds[i..], carry) == [(8 * ds[i] + carry) % 65536] + TimesEight(ds[i + 1..], ds[i] / 8192 % 65536)
    ensures ds[i] / 8192 < 8
  {
    assert ds[i] < 65536 && ds[i..][1..] == ds[i + 1..];
  }

  /** What n digits can hold. */
  function Capacity(n: nat): (r: nat)
    ensures r >= 1
  {
    if n == 0 then 1 else 65536 * Capacity(n - 1)
  }
}
