/** SHA-256 as sections 4.1.2, 4.2.2, 5.3.3 and 6.2.2 of FIPS 180-4 define it. */
module Sha256 {
  type Octet = bv8
  type Word = bv32

  /** Addition modulo 2^32. */
  function Plus(x: Word, y: Word): Word {
    x + y
  }

  function Ch(x: Word, y: Word, z: Word): Word {
    (x & y) ^ (!x & z)
  }

  function Maj(x: Word, y: Word, z: Word): Word {
    (x & y) ^ (x & z) ^ (y & z)
  }

  /** The rotations ROTR of section 3.2, at the distances that occur. */
  function Rotr2(x: Word): Word {
    (x >> 2) | (x << 30)
  }

  function Rotr13(x: Word): Word {
    (x >> 13) | (x << 19)
  }

  function Rotr22(x: Word): Word {
    (x >> 22) | (x << 10)
  }

  function Rotr6(x: Word): Word {
    (x >> 6) | (x << 26)
  }

  function Rotr11(x: Word): Word {
    (x >> 11) | (x << 21)
  }

  function Rotr25(x: Word): Word {
    (x >> 25) | (x << 7)
  }

  function Rotr7(x: Word): Word {
    (x >> 7) | (x << 25)
  }

  function Rotr18(x: Word): Word {
    (x >> 18) | (x << 14)
  }

  function Rotr17(x: Word): Word {
    (x >> 17) | (x << 15)
  }

  function Rotr19(x: Word): Word {
    (x >> 19) | (x << 13)
  }

  /** The shifts SHR. */
  function Shr3(x: Word): Word {
    x >> 3
  }

  function Shr10(x: Word): Word {
    x >> 10
  }

  function BigSigma0(x: Word): Word {
    Rotr2(x) ^ Rotr13(x) ^ Rotr22(x)
  }

  function BigSigma1(x: Word): Word {
    Rotr6(x) ^ Rotr11(x) ^ Rotr25(x)
  }

  function SmallSigma0(x: Word): Word {
    Rotr7(x) ^ Rotr18(x) ^ Shr3(x)
  }

  function SmallSigma1(x: Word): Word {
    Rotr17(x) ^ Rotr19(x) ^ Shr10(x)
  }

  /** The constants K, section 4.2.2, in rows of 16. */
  const K_0: seq<Word> := [
    0x428a2f98, 0x71374491, 0xb5c0fbcf, 0xe9b5dba5, 0x3956c25b, 0x59f111f1, 0x923f82a4, 0xab1c5ed5,
    0xd807aa98, 0x12835b01, 0x243185be, 0x550c7dc3, 0x72be5d74, 0x80deb1fe, 0x9bdc06a7, 0xc19bf174]
  const K_16: seq<Word> := [
    0xe49b69c1, 0xefbe4786, 0x0fc19dc6, 0x240ca1cc, 0x2de92c6f, 0x4a7484aa, 0x5cb0a9dc, 0x76f988da,
    0x983e5152, 0xa831c66d, 0xb00327c8, 0xbf597fc7, 0xc6e00bf3, 0xd5a79147, 0x06ca6351, 0x14292967]
  const K_32: seq<Word> := [
    0x27b70a85, 0x2e1b2138, 0x4d2c6dfc, 0x53380d13, 0x650a7354, 0x766a0abb, 0x81c2c92e, 0x92722c85,
    0xa2bfe8a1, 0xa81a664b, 0xc24b8b70, 0xc76c51a3, 0xd192e819, 0xd6990624, 0xf40e3585, 0x106aa070]
  const K_48: seq<Word> := [
    0x19a4c116, 0x1e376c08, 0x2748774c, 0x34b0bcb5, 0x391c0cb3, 0x4ed8aa4a, 0x5b9cca4f, 0x682e6ff3,
    0x748f82ee, 0x78a5636f, 0x84c87814, 0x8cc70208, 0x90befffa, 0xa4506ceb, 0xbef9a3f7, 0xc67178f2]

  const K: seq<Word> := K_0 + K_16 + K_32 + K_48

  /** The eight working variables, and a hash value. */
  datatype State = State(a: Word, b: Word, c: Word, d: Word, e: Word, f: Word, g: Word, h: Word)

  /** The initial hash value, section 5.3.3. */
  const INITIAL: State := State(0x6a09e667, 0xbb67ae85, 0x3c6ef372, 0xa54ff53a,
                                0x510e527f, 0x9b05688c, 0x1f83d9ab, 0x5be0cd19)

  /** A big-endian word. */
  function WordOf(b0: Octet, b1: Octet, b2: Octet, b3: Octet): Word {
    ((b0 as Word) << 24) | ((b1 as Word) << 16) | ((b2 as Word) << 8) | (b3 as Word)
  }

  function OctetsOf(w: Word): (r: seq<Octet>)
    ensures |r| == 4
  {
    [((w >> 24) & 0xff) as Octet, ((w >> 16) & 0xff) as Octet, ((w >> 8) & 0xff) as Octet, (w & 0xff) as Octet]
  }

  /** The first n words of the message schedule of a block, section 6.2.2 step 1. */
  function Schedule(block: seq<Octet>, n: nat): (ws: seq<Word>)
    requires |block| == 64 && n <= 64
    ensures |ws| == n
  {
    if n == 0 then []
    else
      var t := n - 1;
      var ws := Schedule(block, t);
      ws + [if t < 16 then WordOf(block[4 * t], block[4 * t + 1], block[4 * t + 2], block[4 * t + 3])
            else Plus(Plus(Plus(SmallSigma1(ws[t - 2]), ws[t - 7]), SmallSigma0(ws[t - 15])), ws[t - 16])]
  }

  /** One round, step 3. */
  function Round(s: State, k: Word, w: Word): State {
    var t1 := Plus(Plus(Plus(Plus(s.h, BigSigma1(s.e)), Ch(s.e, s.f, s.g)), k), w);
    var t2 := Plus(BigSigma0(s.a), Maj(s.a, s.b, s.c));
    State(Plus(t1, t2), s.a, s.b, s.c, Plus(s.d, t1), s.e, s.f, s.g)
  }

  /** The state after the first n rounds. */
  function Rounds(s: State, ws: seq<Word>, n: nat): State
    requires |ws| == 64 && n <= 64
  {
    if n == 0 then s else Round(Rounds(s, ws, n - 1), K[n - 1], ws[n - 1])
  }

  function AddStates(s: State, t: State): State {
    State(Plus(s.a, t.a), Plus(s.b, t.b), Plus(s.c, t.c), Plus(s.d, t.d),
          Plus(s.e, t.e), Plus(s.f, t.f), Plus(s.g, t.g), Plus(s.h, t.h))
  }

  /** The hash value after one more block, section 6.2.2. */
  function Compress(s: State, block: seq<Octet>): State
    requires |block| == 64
  {
    AddStates(s, Rounds(s, Schedule(block, 64), 64))
  }

  /** The hash value after all whole blocks of a message. */
  function Fold(s: State, msg: seq<Octet>): State
    requires |msg| % 64 == 0
  {
    if msg == [] then s
    else
      var n := |msg| - 64;
      Compress(Fold(s, msg[..n]), msg[n..])
  }

  function Words(s: State): (r: seq<Word>)
    ensures |r| == 8
  {
    [s.a, s.b, s.c, s.d, s.e, s.f, s.g, s.h]
  }

  /** The bytes of the first n words. */
  function OctetsUpTo(ws: seq<Word>, n: nat): (r: seq<Octet>)
    requires n <= |ws|
    ensures |r| == 4 * n
  {
    if n == 0 then [] else OctetsUpTo(ws, n - 1) + OctetsOf(ws[n - 1])
  }

  /** The hash value as bytes. */
  function Digest(s: State): (r: seq<Octet>)
    ensures |r| == 32
  {
    OctetsUpTo(Words(s), 8)
  }

  lemma {:induction false} SchedulePrefix(block: seq<Octet>, n: nat, m: nat)
    requires |block| == 64 && n <= m <= 64
    ensures Schedule(block, n) == Schedule(block, m)[..n]
    decreases m
  {
    if n < m {
      SchedulePrefix(block, n, m - 1);
    }
  }

  /** Every word of the schedule is given by the four words before it that step 1 names. */
  lemma ScheduleAt(block: seq<Octet>, t: nat)
    requires |block| == 64 && t < 64
    ensures var ws := Schedule(block, 64);
      ws[t] == if t < 16 then WordOf(block[4 * t], block[4 * t + 1], block[4 * t + 2], block[4 * t + 3])
               else Plus(Plus(Plus(SmallSigma1(ws[t - 2]), ws[t - 7]), SmallSigma0(ws[t - 15])), ws[t - 16])
  {
    SchedulePrefix(block, t, 64);
    SchedulePrefix(block, t + 1, 64);
    hide Plus, WordOf, SmallSigma0, SmallSigma1;
    assert Schedule(block, 64)[t] == Schedule(block, t + 1)[t];
  }
}
