/** Bytes, fixed-width big-endian numbers, and powers of two. */
module Bytes {

  newtype byte = b: int | 0 <= b < 256

  /** 2 to the power n. */
  function Pow2(n: nat): (p: nat)
    ensures p >= 1
  {
    if n == 0 then 1 else 2 * Pow2(n - 1)
  }

  lemma {:induction false} Pow2Add(m: nat, n: nat)
    ensures Pow2(m + n) == Pow2(m) * Pow2(n)
  {
    if m == 0 {
    } else {
      Pow2Add(m - 1, n);
      assert Pow2(m + n) == 2 * Pow2(m - 1 + n);
      assert 2 * (Pow2(m - 1) * Pow2(n)) == (2 * Pow2(m - 1)) * Pow2(n);
    }
  }

  lemma {:induction false} Pow2Strict(m: nat, n: nat)
    requires m < n
    ensures Pow2(m) < Pow2(n)
    decreases n
  {
    if m + 1 < n {
      Pow2Strict(m, n - 1);
    }
  }

  lemma Pow2Monotone(m: nat, n: nat)
    requires m <= n
    ensures Pow2(m) <= Pow2(n)
  {
    if m < n {
      Pow2Strict(m, n);
    }
  }

  /** 256 to the power n. */
  function Pow256(n: nat): (p: nat)
    ensures p >= 1
  {
    if n == 0 then 1 else 256 * Pow256(n - 1)
  }

  /** The k low bytes of n, most significant byte first. */
  function BigEndian(n: nat, k: nat): (bytes: seq<byte>)
    ensures |bytes| == k
  {
    if k == 0 then [] else BigEndian(n / 256, k - 1) + [(n % 256) as byte]
  }

  /** The number a big-endian byte sequence stands for. */
  function FromBigEndian(bytes: seq<byte>): nat {
    if bytes == [] then 0
    else 256 * FromBigEndian(bytes[..|bytes| - 1]) + bytes[|bytes| - 1] as nat
  }

  /** Reading back a big-endian number gives the number, as long as it fits. */
  lemma {:induction false} BigEndianRoundTrip(n: nat, k: nat)
    requires n < Pow256(k)
    ensures FromBigEndian(BigEndian(n, k)) == n
  {
    if k > 0 {
      var b := BigEndian(n, k);
      assert b[..|b| - 1] == BigEndian(n / 256, k - 1);
      BigEndianRoundTrip(n / 256, k - 1);
    }
  }

  /** The first byte weighs most. */
  lemma {:induction false} FirstByteHighest(b: byte, rest: seq<byte>)
    ensures FromBigEndian([b] + rest) == b as nat * Pow256(|rest|) + FromBigEndian(rest)
  {
    if rest == [] {
      assert [b] + rest == [b];
      assert FromBigEndian([b]) == b as nat by {
        assert [b][..0] == [];
      }
    } else {
      var n := |rest| - 1;
      assert ([b] + rest)[..n + 1] == [b] + rest[..n];
      FirstByteHighest(b, rest[..n]);
      assert 256 * (b as nat * Pow256(n)) == b as nat * Pow256(n + 1);
    }
  }

  /** Writing what was read gives the bytes. */
  lemma {:induction false} FromBigEndianRoundTrip(bytes: seq<byte>)
    ensures FromBigEndian(bytes) < Pow256(|bytes|) && BigEndian(FromBigEndian(bytes), |bytes|) == bytes
  {
    if bytes != [] {
      var n := |bytes| - 1;
      FromBigEndianRoundTrip(bytes[..n]);
      assert FromBigEndian(bytes) / 256 == FromBigEndian(bytes[..n]) && FromBigEndian(bytes) % 256 == bytes[n] as nat;
      assert bytes == bytes[..n] + [bytes[n]];
    }
  }

  /** n shifted right by k whole bytes. */
  function ShiftRight(n: nat, k: nat): nat
    decreases k
  {
    if k == 0 then n else ShiftRight(n / 256, k - 1)
  }

  /** n shifted left by k whole bytes. */
  function ShiftLeft(n: nat, k: nat): nat
    decreases k
  {
    if k == 0 then n else ShiftLeft(256 * n, k - 1)
  }

  lemma {:induction false} BigEndianAt(n: nat, k: nat, i: nat)
    requires i < k
    ensures BigEndian(n, k)[i] == (ShiftRight(n, k - 1 - i) % 256) as byte
  {
    if i < k - 1 {
      BigEndianAt(n / 256, k - 1, i);
    }
  }

  lemma {:induction false} ShiftLeftAdd(a: nat, b: nat, k: nat)
    ensures ShiftLeft(a + b, k) == ShiftLeft(a, k) + ShiftLeft(b, k)
    decreases k
  {
    if k > 0 {
      ShiftLeftAdd(256 * a, 256 * b, k - 1);
    }
  }

  const U64_LIMIT: nat := 0x1_0000_0000_0000_0000

  lemma U64LimitIsPow256()
    ensures U64_LIMIT == Pow256(8) == Pow2(64)
  {
    assert Pow256(4) == 0x1_0000_0000;
    assert Pow256(8) == 256 * (256 * (256 * (256 * Pow256(4))));
    assert Pow2(8) == 256;
    assert Pow2(16) == 0x1_0000 by { Pow2Add(8, 8); }
    assert Pow2(32) == 0x1_0000_0000 by { Pow2Add(16, 16); }
    Pow2Add(32, 32);
  }

  /** serialise_uint64_t: appends the eight bytes of n, most significant first. */
  method SerialiseU64(n: nat, bytes: seq<byte>) returns (out: seq<byte>)
    requires n < U64_LIMIT
    ensures out == bytes + BigEndian(n, 8)
  {
    out := bytes;
    for i := 0 to 8
      invariant out == bytes + BigEndian(n, 8)[..i]
    {
      BigEndianAt(n, 8, i);
      out := out + [(ShiftRight(n, 7 - i) % 256) as byte];
    }
  }

  lemma FromBigEndianPrefix(bytes: seq<byte>, i: nat)
    requires i < |bytes|
    ensures FromBigEndian(bytes[..i + 1]) == 256 * FromBigEndian(bytes[..i]) + bytes[i] as nat
  {
    assert bytes[..i + 1][..i] == bytes[..i];
  }

  /** deserialise_uint64_t: reads eight bytes at the index and moves the index past them. */
  method DeserialiseU64(bytes: seq<byte>, index: nat) returns (r: nat, next: nat)
    requires index + 8 <= |bytes|
    ensures next == index + 8
    ensures r == FromBigEndian(bytes[index..index + 8])
  {
    hide FromBigEndian, ShiftLeft;
    r, next := 0, index;
    ghost var field := bytes[index..index + 8];
    NoBytes(field);
    for i := 0 to 8
      invariant next == index + i
      invariant r == ShiftLeft(FromBigEndian(field[..i]), 8 - i)
    {
      var b := bytes[next] as nat;
      assert bytes[next] == field[i];
      ByteAdded(field, i);
      // the bits of the new byte are still clear in r, so the bitwise or adds
      r := r + ShiftLeft(b, 7 - i);
      next := next + 1;
    }
    assert field[..8] == field;
    NoShift(FromBigEndian(field));
  }

  lemma NoBytes(field: seq<byte>)
    ensures ShiftLeft(FromBigEndian(field[..0]), 8) == 0
  {
    ShiftLeftAdd(0, 0, 8);
  }

  lemma NoShift(n: nat)
    ensures ShiftLeft(n, 0) == n
  {}

  lemma ByteAdded(field: seq<byte>, i: nat)
    requires i < 8 == |field|
    ensures ShiftLeft(FromBigEndian(field[..i]), 8 - i) + ShiftLeft(field[i] as nat, 7 - i)
         == ShiftLeft(FromBigEndian(field[..i + 1]), 7 - i)
  {
    hide FromBigEndian;
    FromBigEndianPrefix(field, i);
    ShiftLeftAdd(256 * FromBigEndian(field[..i]), field[i] as nat, 7 - i);
  }
}
