/** sha256_compress of merklecpp: SHA-256's compression function on two hashes, in 32-bit words. */
module MerkleCompress {
  import opened Sha256

  /** Reading four bytes as a word on a little-endian machine. */
  function Load(b0: Octet, b1: Octet, b2: Octet, b3: Octet): Word {
    (b0 as Word) | ((b1 as Word) << 8) | ((b2 as Word) << 16) | ((b3 as Word) << 24)
  }

  /** The bytes a little-endian machine stores for a word. */
  function Store(w: Word): (r: seq<Octet>)
    ensures |r| == 4
  {
    [(w & 0xff) as Octet, ((w >> 8) & 0xff) as Octet, ((w >> 16) & 0xff) as Octet, ((w >> 24) & 0xff) as Octet]
  }

  /** convert_endianness: swaps the bytes of a word. */
  function ConvertEndianness(n: Word): Word {
    ((n >> 24) & 0xff) | (((n >> 16) & 0xff) << 8) | (((n >> 8) & 0xff) << 16) | ((n & 0xff) << 24)
  }

  lemma SwappedLoad(b0: Octet, b1: Octet, b2: Octet, b3: Octet)
    ensures ConvertEndianness(Load(b0, b1, b2, b3)) == WordOf(b0, b1, b2, b3)
  {}

  lemma SwappedStore(w: Word)
    ensures Store(ConvertEndianness(w)) == OctetsOf(w)
  {}

  /** The sums of rotations, bracketed as the source has them. */
  function S0(x: Word): Word {
    Rotr7(x) ^ (Rotr18(x) ^ Shr3(x))
  }

  function S1(x: Word): Word {
    Rotr17(x) ^ (Rotr19(x) ^ Shr10(x))
  }

  function T0(x: Word): Word {
    Rotr2(x) ^ (Rotr13(x) ^ Rotr22(x))
  }

  function T1(x: Word): Word {
    Rotr6(x) ^ (Rotr11(x) ^ Rotr25(x))
  }

  function MajOf(x: Word, y: Word, z: Word): Word {
    (x & y) ^ ((x & z) ^ (y & z))
  }

  lemma XorAssociates(x: Word, y: Word, z: Word)
    ensures x ^ (y ^ z) == x ^ y ^ z
  {}

  lemma Bracketing(x: Word)
    ensures S0(x) == SmallSigma0(x) && S1(x) == SmallSigma1(x) && T0(x) == BigSigma0(x) && T1(x) == BigSigma1(x)
  {
    hide Rotr7, Rotr18, Shr3, Rotr17, Rotr19, Shr10, Rotr2, Rotr13, Rotr22, Rotr6, Rotr11, Rotr25;
    XorAssociates(Rotr7(x), Rotr18(x), Shr3(x));
    XorAssociates(Rotr17(x), Rotr19(x), Shr10(x));
    XorAssociates(Rotr2(x), Rotr13(x), Rotr22(x));
    XorAssociates(Rotr6(x), Rotr11(x), Rotr25(x));
  }

  lemma MajBracketing(x: Word, y: Word, z: Word)
    ensures MajOf(x, y, z) == Maj(x, y, z)
  {}

  ghost predicate Scheduled(cws: array<Word>, block: seq<Octet>, n: nat)
    requires |block| == 64
    reads cws
  {
    cws.Length == 64 && n <= 64 && forall k :: 0 <= k < n ==> cws[k] == Schedule(block, 64)[k]
  }

  /** The first loop: the words of the block. */
  method BlockWords(cws: array<Word>, block: seq<Octet>)
    requires cws.Length == 64 && |block| == 64
    modifies cws
    ensures Scheduled(cws, block, 16)
  {
    hide Schedule, Load, ConvertEndianness, WordOf;
    for i := 0 to 16
      invariant Scheduled(cws, block, i)
    {
      ScheduleAt(block, i);
      SwappedLoad(block[4 * i], block[4 * i + 1], block[4 * i + 2], block[4 * i + 3]);
      cws[i] := ConvertEndianness(Load(block[4 * i], block[4 * i + 1], block[4 * i + 2], block[4 * i + 3]));
    }
  }

  /** The second loop: the words computed from earlier ones. */
  method ScheduleWords(cws: array<Word>, block: seq<Octet>)
    requires |block| == 64 && Scheduled(cws, block, 16)
    modifies cws
    ensures Scheduled(cws, block, 64)
  {
    hide Schedule, WordOf, Plus, S0, S1, SmallSigma0, SmallSigma1;
    for i := 16 to 64
      invariant Scheduled(cws, block, i)
    {
      ScheduleAt(block, i);
      var t16, t15, t7, t2 := cws[i - 16], cws[i - 15], cws[i - 7], cws[i - 2];
      Bracketing(t2);
      Bracketing(t15);
      cws[i] := Plus(Plus(Plus(S1(t2), t7), S0(t15)), t16);
    }
  }

  /** The loop over the 64 rounds. */
  method RunRounds(cws: array<Word>, ghost block: seq<Octet>) returns (h: seq<Word>)
    requires |block| == 64 && Scheduled(cws, block, 64)
    ensures h == Words(Rounds(INITIAL, Schedule(block, 64), 64))
  {
    hide Schedule, Plus, BigSigma0, BigSigma1, Ch, Maj, T0, T1, MajOf;
    h := Words(INITIAL);
    ghost var ws := Schedule(block, 64);
    for i := 0 to 64
      invariant h == Words(Rounds(INITIAL, ws, i))
    {
      var a0, b0, c0, d0, e0, f0, g0, h0 := h[0], h[1], h[2], h[3], h[4], h[5], h[6], h[7];
      Bracketing(e0);
      Bracketing(a0);
      MajBracketing(a0, b0, c0);
      var t1 := Plus(Plus(Plus(Plus(h0, T1(e0)), Ch(e0, f0, g0)), K[i]), cws[i]);
      var t2 := Plus(T0(a0), MajOf(a0, b0, c0));
      h := [Plus(t1, t2), a0, b0, c0, Plus(d0, t1), e0, f0, g0];
    }
  }

  /** sha256_compress: the digest of one block, the two hashes side by side, without padding. */
  method Sha256Compress(l: seq<Octet>, r: seq<Octet>) returns (out: seq<Octet>)
    requires |l| == |r| == 32
    ensures out == Digest(Compress(INITIAL, l + r))
  {
    hide Schedule, Rounds, Plus, ConvertEndianness, Store, OctetsOf;
    var block := l + r;
    var cws := new Word[64](_ => 0);
    BlockWords(cws, block);
    ScheduleWords(cws, block);
    var h := RunRounds(cws, block);
    var s := Words(INITIAL);
    ghost var sum := Compress(INITIAL, block);
    out := [];
    for i := 0 to 8
      invariant out == OctetsUpTo(Words(sum), i)
    {
      var w := Plus(s[i], h[i]);
      SwappedStore(w);
      out := out + Store(ConvertEndianness(w));
    }
  }
}
