/**
 hash256_block of picosha, which computes on 64-bit words that hold 32-bit values. Whenever it keeps a value it masks
 it, so the value is that of the 32-bit word FIPS 180-4 has in its place.
 */
module PicoBlock {
  import opened Sha256

  type Wide = bv64

  /** A 32-bit word held in a 64-bit one. */
  function Widen(x: Word): Wide {
    x as Wide
  }

  /** What a 64-bit word stands for. */
  function Low(x: Wide): Word {
    (x & 0xffff_ffff) as Word
  }

  function PicoPlus(x: Wide, y: Wide): Wide {
    x + y
  }

  function Mask32(x: Wide): Wide {
    x & 0xffff_ffff
  }

  function PicoCh(x: Wide, y: Wide, z: Wide): Wide {
    (x & y) ^ (!x & z)
  }

  function PicoMaj(x: Wide, y: Wide, z: Wide): Wide {
    (x & y) ^ (x & z) ^ (y & z)
  }

  /** rotr, at the distances that occur. */
  function PicoRotr2(x: Wide): Wide {
    ((x >> 2) | (x << 30)) & 0xffff_ffff
  }

  function PicoRotr13(x: Wide): Wide {
    ((x >> 13) | (x << 19)) & 0xffff_ffff
  }

  function PicoRotr22(x: Wide): Wide {
    ((x >> 22) | (x << 10)) & 0xffff_ffff
  }

  function PicoRotr6(x: Wide): Wide {
    ((x >> 6) | (x << 26)) & 0xffff_ffff
  }

  function PicoRotr11(x: Wide): Wide {
    ((x >> 11) | (x << 21)) & 0xffff_ffff
  }

  function PicoRotr25(x: Wide): Wide {
    ((x >> 25) | (x << 7)) & 0xffff_ffff
  }

  function PicoRotr7(x: Wide): Wide {
    ((x >> 7) | (x << 25)) & 0xffff_ffff
  }

  function PicoRotr18(x: Wide): Wide {
    ((x >> 18) | (x << 14)) & 0xffff_ffff
  }

  function PicoRotr17(x: Wide): Wide {
    ((x >> 17) | (x << 15)) & 0xffff_ffff
  }

  function PicoRotr19(x: Wide): Wide {
    ((x >> 19) | (x << 13)) & 0xffff_ffff
  }

  /** shr */
  function PicoShr3(x: Wide): Wide {
    x >> 3
  }

  function PicoShr10(x: Wide): Wide {
    x >> 10
  }

  function Bsig0(x: Wide): Wide {
    PicoRotr2(x) ^ PicoRotr13(x) ^ PicoRotr22(x)
  }

  function Bsig1(x: Wide): Wide {
    PicoRotr6(x) ^ PicoRotr11(x) ^ PicoRotr25(x)
  }

  function Ssig0(x: Wide): Wide {
    PicoRotr7(x) ^ PicoRotr18(x) ^ PicoShr3(x)
  }

  function Ssig1(x: Wide): Wide {
    PicoRotr17(x) ^ PicoRotr19(x) ^ PicoShr10(x)
  }

  lemma RawRotr2(x: Word)
    ensures PicoRotr2(x as Wide) == Rotr2(x) as Wide
  {}

  lemma WideRotr2(x: Word)
    ensures PicoRotr2(Widen(x)) == Widen(Rotr2(x))
  {
    hide PicoRotr2, Rotr2;
    RawRotr2(x);
  }

  lemma RawRotr13(x: Word)
    ensures PicoRotr13(x as Wide) == Rotr13(x) as Wide
  {}

  lemma WideRotr13(x: Word)
    ensures PicoRotr13(Widen(x)) == Widen(Rotr13(x))
  {
    hide PicoRotr13, Rotr13;
    RawRotr13(x);
  }

  lemma RawRotr22(x: Word)
    ensures PicoRotr22(x as Wide) == Rotr22(x) as Wide
  {}

  lemma WideRotr22(x: Word)
    ensures PicoRotr22(Widen(x)) == Widen(Rotr22(x))
  {
    hide PicoRotr22, Rotr22;
    RawRotr22(x);
  }

  lemma RawRotr6(x: Word)
    ensures PicoRotr6(x as Wide) == Rotr6(x) as Wide
  {}

  lemma WideRotr6(x: Word)
    ensures PicoRotr6(Widen(x)) == Widen(Rotr6(x))
  {
    hide PicoRotr6, Rotr6;
    RawRotr6(x);
  }

  lemma RawRotr11(x: Word)
    ensures PicoRotr11(x as Wide) == Rotr11(x) as Wide
  {}

  lemma WideRotr11(x: Word)
    ensures PicoRotr11(Widen(x)) == Widen(Rotr11(x))
  {
    hide PicoRotr11, Rotr11;
    RawRotr11(x);
  }

  lemma RawRotr25(x: Word)
    ensures PicoRotr25(x as Wide) == Rotr25(x) as Wide
  {}

  lemma WideRotr25(x: Word)
    ensures PicoRotr25(Widen(x)) == Widen(Rotr25(x))
  {
    hide PicoRotr25, Rotr25;
    RawRotr25(x);
  }

  lemma RawRotr7(x: Word)
    ensures PicoRotr7(x as Wide) == Rotr7(x) as Wide
  {}

  lemma WideRotr7(x: Word)
    ensures PicoRotr7(Widen(x)) == Widen(Rotr7(x))
  {
    hide PicoRotr7, Rotr7;
    RawRotr7(x);
  }

  lemma RawRotr18(x: Word)
    ensures PicoRotr18(x as Wide) == Rotr18(x) as Wide
  {}

  lemma WideRotr18(x: Word)
    ensures PicoRotr18(Widen(x)) == Widen(Rotr18(x))
  {
    hide PicoRotr18, Rotr18;
    RawRotr18(x);
  }

  lemma RawRotr17(x: Word)
    ensures PicoRotr17(x as Wide) == Rotr17(x) as Wide
  {}

  lemma WideRotr17(x: Word)
    ensures PicoRotr17(Widen(x)) == Widen(Rotr17(x))
  {
    hide PicoRotr17, Rotr17;
    RawRotr17(x);
  }

  lemma RawRotr19(x: Word)
    ensures PicoRotr19(x as Wide) == Rotr19(x) as Wide
  {}

  lemma WideRotr19(x: Word)
    ensures PicoRotr19(Widen(x)) == Widen(Rotr19(x))
  {
    hide PicoRotr19, Rotr19;
    RawRotr19(x);
  }

  lemma RawShr3(x: Word)
    ensures PicoShr3(x as Wide) == Shr3(x) as Wide
  {}

  lemma WideShr3(x: Word)
    ensures PicoShr3(Widen(x)) == Widen(Shr3(x))
  {
    hide PicoShr3, Shr3;
    RawShr3(x);
  }

  lemma RawShr10(x: Word)
    ensures PicoShr10(x as Wide) == Shr10(x) as Wide
  {}

  lemma WideShr10(x: Word)
    ensures PicoShr10(Widen(x)) == Widen(Shr10(x))
  {
    hide PicoShr10, Shr10;
    RawShr10(x);
  }

  lemma Xor3(a: Word, b: Word, c: Word)
    ensures Widen(a) ^ Widen(b) ^ Widen(c) == Widen(a ^ b ^ c)
  {}

  lemma WideBsig0(x: Word)
    ensures Bsig0(Widen(x)) == Widen(BigSigma0(x))
  {
    hide PicoRotr2, Rotr2, PicoRotr13, Rotr13, PicoRotr22, Rotr22;
    WideRotr2(x);
    WideRotr13(x);
    WideRotr22(x);
    Xor3(Rotr2(x), Rotr13(x), Rotr22(x));
  }

  lemma WideBsig1(x: Word)
    ensures Bsig1(Widen(x)) == Widen(BigSigma1(x))
  {
    hide PicoRotr6, Rotr6, PicoRotr11, Rotr11, PicoRotr25, Rotr25;
    WideRotr6(x);
    WideRotr11(x);
    WideRotr25(x);
    Xor3(Rotr6(x), Rotr11(x), Rotr25(x));
  }

  lemma WideSsig0(x: Word)
    ensures Ssig0(Widen(x)) == Widen(SmallSigma0(x))
  {
    hide PicoRotr7, Rotr7, PicoRotr18, Rotr18, PicoShr3, Shr3;
    WideRotr7(x);
    WideRotr18(x);
    WideShr3(x);
    Xor3(Rotr7(x), Rotr18(x), Shr3(x));
  }

  lemma WideSsig1(x: Word)
    ensures Ssig1(Widen(x)) == Widen(SmallSigma1(x))
  {
    hide PicoRotr17, Rotr17, PicoRotr19, Rotr19, PicoShr10, Shr10;
    WideRotr17(x);
    WideRotr19(x);
    WideShr10(x);
    Xor3(Rotr17(x), Rotr19(x), Shr10(x));
  }

  lemma WideChoices(x: Word, y: Word, z: Word)
    ensures PicoCh(Widen(x), Widen(y), Widen(z)) == Widen(Ch(x, y, z))
    ensures PicoMaj(Widen(x), Widen(y), Widen(z)) == Widen(Maj(x, y, z))
  {}

  lemma LowIs(x: Wide)
    ensures Low(x) == (x & 0xffff_ffff) as Word
  {}

  lemma SumIs(x: Wide, y: Wide)
    ensures PicoPlus(x, y) == x + y
  {}

  /** The low half of a sum is the sum of the low halves. */
  lemma LowSum(x: Wide, y: Wide, sum: Wide)
    ensures sum == x + y ==>
      (sum & 0xffff_ffff) as Word == (x & 0xffff_ffff) as Word + (y & 0xffff_ffff) as Word
  {}

  lemma LowSumPlus(x: Wide, y: Wide, sum: Wide)
    requires sum == x + y
    ensures (sum & 0xffff_ffff) as Word == Plus((x & 0xffff_ffff) as Word, (y & 0xffff_ffff) as Word)
  {
    LowSum(x, y, sum);
  }

  /** Addition agrees modulo 2^32, whether the sum has been masked or not. */
  lemma LowPlus(x: Wide, y: Wide)
    ensures Low(PicoPlus(x, y)) == Plus(Low(x), Low(y))
  {
    hide Low, PicoPlus, Plus;
    LowIs(x);
    LowIs(y);
    LowIs(PicoPlus(x, y));
    SumIs(x, y);
    LowSumPlus(x, y, PicoPlus(x, y));
  }

  lemma LowWiden(x: Word)
    ensures Low(Widen(x)) == x
  {}

  lemma MaskLow(x: Wide)
    ensures Mask32(x) == Widen(Low(x))
  {}

  function PicoWord(b0: Octet, b1: Octet, b2: Octet, b3: Octet): Wide {
    ((b0 as Wide) << 24) | ((b1 as Wide) << 16) | ((b2 as Wide) << 8) | (b3 as Wide)
  }

  lemma WideWord(b0: Octet, b1: Octet, b2: Octet, b3: Octet)
    ensures PicoWord(b0, b1, b2, b3) == Widen(WordOf(b0, b1, b2, b3))
  {}

  /** The words of a hash value, in the order in which the source stores them. */
  function WideState(s: State): (r: seq<Wide>)
    ensures |r| == 8
  {
    [Widen(s.a), Widen(s.b), Widen(s.c), Widen(s.d), Widen(s.e), Widen(s.f), Widen(s.g), Widen(s.h)]
  }

  function Temp1(e: Wide, f: Wide, g: Wide, h: Wide, k: Wide, w: Wide): Wide {
    PicoPlus(PicoPlus(PicoPlus(PicoPlus(h, Bsig1(e)), PicoCh(e, f, g)), k), w)
  }

  function Temp2(a: Wide, b: Wide, c: Wide): Wide {
    PicoPlus(Bsig0(a), PicoMaj(a, b, c))
  }

  lemma LowTemp1(s: State, k: Word, w: Word)
    ensures Low(Temp1(Widen(s.e), Widen(s.f), Widen(s.g), Widen(s.h), Widen(k), Widen(w)))
         == Plus(Plus(Plus(Plus(s.h, BigSigma1(s.e)), Ch(s.e, s.f, s.g)), k), w)
  {
    hide Bsig1, BigSigma1, PicoCh, Ch, Plus, PicoPlus, Low, Widen;
    WideBsig1(s.e);
    WideChoices(s.e, s.f, s.g);
    var s1, ch := BigSigma1(s.e), Ch(s.e, s.f, s.g);
    LowPlus(Widen(s.h), Widen(s1));
    LowPlus(PicoPlus(Widen(s.h), Widen(s1)), Widen(ch));
    LowPlus(PicoPlus(PicoPlus(Widen(s.h), Widen(s1)), Widen(ch)), Widen(k));
    LowPlus(PicoPlus(PicoPlus(PicoPlus(Widen(s.h), Widen(s1)), Widen(ch)), Widen(k)), Widen(w));
    LowWiden(s.h);
    LowWiden(s1);
    LowWiden(ch);
    LowWiden(k);
    LowWiden(w);
  }

  lemma LowTemp2(s: State)
    ensures Low(Temp2(Widen(s.a), Widen(s.b), Widen(s.c))) == Plus(BigSigma0(s.a), Maj(s.a, s.b, s.c))
  {
    hide Bsig0, BigSigma0, PicoMaj, Maj, Plus, PicoPlus, Low, Widen;
    WideBsig0(s.a);
    WideChoices(s.a, s.b, s.c);
    var s0, maj := BigSigma0(s.a), Maj(s.a, s.b, s.c);
    LowPlus(Widen(s0), Widen(maj));
    LowWiden(s0);
    LowWiden(maj);
  }

  /** The two masked sums of a round. */
  lemma WideRound(s: State, k: Word, w: Word)
    ensures var t1 := Temp1(Widen(s.e), Widen(s.f), Widen(s.g), Widen(s.h), Widen(k), Widen(w));
      var t2 := Temp2(Widen(s.a), Widen(s.b), Widen(s.c));
      && Mask32(PicoPlus(Widen(s.d), t1)) == Widen(Round(s, k, w).e)
      && Mask32(PicoPlus(t1, t2)) == Widen(Round(s, k, w).a)
  {
    hide Temp1, Temp2, BigSigma0, BigSigma1, Ch, Maj, Plus, PicoPlus, Low, Widen, Mask32;
    var t1 := Temp1(Widen(s.e), Widen(s.f), Widen(s.g), Widen(s.h), Widen(k), Widen(w));
    var t2 := Temp2(Widen(s.a), Widen(s.b), Widen(s.c));
    LowTemp1(s, k, w);
    LowTemp2(s);
    LowWiden(s.d);
    LowPlus(Widen(s.d), t1);
    LowPlus(t1, t2);
    MaskLow(PicoPlus(Widen(s.d), t1));
    MaskLow(PicoPlus(t1, t2));
  }

  lemma WideSum(x: Word, y: Word)
    ensures Mask32(PicoPlus(Widen(x), Widen(y))) == Widen(Plus(x, y))
  {
    hide Plus, PicoPlus, Low, Widen, Mask32;
    LowPlus(Widen(x), Widen(y));
    LowWiden(x);
    LowWiden(y);
    MaskLow(PicoPlus(Widen(x), Widen(y)));
  }

  function PicoScheduled(t2: Wide, t7: Wide, t15: Wide, t16: Wide): Wide {
    Mask32(PicoPlus(PicoPlus(PicoPlus(Ssig1(t2), t7), Ssig0(t15)), t16))
  }

  lemma WideScheduled(t2: Word, t7: Word, t15: Word, t16: Word)
    ensures PicoScheduled(Widen(t2), Widen(t7), Widen(t15), Widen(t16))
         == Widen(Plus(Plus(Plus(SmallSigma1(t2), t7), SmallSigma0(t15)), t16))
  {
    hide Ssig0, Ssig1, SmallSigma0, SmallSigma1, Plus, PicoPlus, Low, Widen, Mask32;
    WideSsig0(t15);
    WideSsig1(t2);
    var s1, s0 := SmallSigma1(t2), SmallSigma0(t15);
    LowPlus(Widen(s1), Widen(t7));
    LowPlus(PicoPlus(Widen(s1), Widen(t7)), Widen(s0));
    LowPlus(PicoPlus(PicoPlus(Widen(s1), Widen(t7)), Widen(s0)), Widen(t16));
    LowWiden(s1);
    LowWiden(t7);
    LowWiden(s0);
    LowWiden(t16);
    MaskLow(PicoPlus(PicoPlus(PicoPlus(Widen(s1), Widen(t7)), Widen(s0)), Widen(t16)));
  }

  ghost predicate Scheduled(ws: array<Wide>, block: seq<Octet>, n: nat)
    requires |block| == 64
    reads ws
  {
    ws.Length == 64 && n <= 64 && forall k :: 0 <= k < n ==> ws[k] == Widen(Schedule(block, 64)[k])
  }

  /** The first loop: the words of the block. */
  method BlockWords(w: array<Wide>, block: seq<Octet>)
    requires w.Length == 64 && |block| == 64
    modifies w
    ensures Scheduled(w, block, 16)
  {
    hide Schedule, PicoWord, WordOf, Widen;
    for i := 0 to 16
      invariant Scheduled(w, block, i)
    {
      ScheduleAt(block, i);
      WideWord(block[i * 4], block[i * 4 + 1], block[i * 4 + 2], block[i * 4 + 3]);
      w[i] := PicoWord(block[i * 4], block[i * 4 + 1], block[i * 4 + 2], block[i * 4 + 3]);
    }
  }

  /** The second loop: the words computed from earlier ones. */
  method ScheduleWords(w: array<Wide>, block: seq<Octet>)
    requires |block| == 64 && Scheduled(w, block, 16)
    modifies w
    ensures Scheduled(w, block, 64)
  {
    hide Schedule, WordOf, Widen, PicoScheduled, Plus, SmallSigma0, SmallSigma1;
    for i := 16 to 64
      invariant Scheduled(w, block, i)
    {
      ScheduleAt(block, i);
      ghost var ws := Schedule(block, 64);
      WideScheduled(ws[i - 2], ws[i - 7], ws[i - 15], ws[i - 16]);
      w[i] := PicoScheduled(w[i - 2], w[i - 7], w[i - 15], w[i - 16]);
    }
  }

  /** The loop over the 64 rounds. */
  method RunRounds(md: seq<Wide>, w: array<Wide>, ghost s: State, ghost block: seq<Octet>) returns (out: seq<Wide>)
    requires md == WideState(s) && |block| == 64 && Scheduled(w, block, 64)
    ensures out == WideState(Rounds(s, Schedule(block, 64), 64))
  {
    hide Schedule, Widen, Plus, PicoPlus, Mask32, Temp1, Temp2, BigSigma0, BigSigma1, Ch, Maj;
    var a, b, c, d := md[0], md[1], md[2], md[3];
    var e, f, g, h := md[4], md[5], md[6], md[7];
    ghost var ws := Schedule(block, 64);
    for i := 0 to 64
      invariant [a, b, c, d, e, f, g, h] == WideState(Rounds(s, ws, i))
    {
      ghost var t := Rounds(s, ws, i);
      WideConstant(i);
      WideRound(t, K[i], ws[i]);
      var temp1 := Temp1(e, f, g, h, Constant(i), w[i]);
      var temp2 := Temp2(a, b, c);
      h := g;
      g := f;
      f := e;
      e := Mask32(PicoPlus(d, temp1));
      d := c;
      c := b;
      b := a;
      a := Mask32(PicoPlus(temp1, temp2));
    }
    out := [a, b, c, d, e, f, g, h];
  }

  /** add_constant */
  function Constant(i: nat): Wide
    requires i < 64
  {
    K[i] as Wide
  }

  lemma WideConstant(i: nat)
    requires i < 64
    ensures Constant(i) == Widen(K[i])
  {}

  /** The last lines of hash256_block: adds the working variables to the digest, and masks. */
  method AddMasked(md: array<Wide>, vars: seq<Wide>)
    requires md.Length == |vars| == 8
    modifies md
    ensures forall k :: 0 <= k < 8 ==> md[k] == Mask32(PicoPlus(old(md[k]), vars[k]))
  {
    hide PicoPlus, Mask32;
    for i := 0 to 8
      invariant forall k :: 0 <= k < i ==> md[k] == PicoPlus(old(md[k]), vars[k])
      invariant forall k :: i <= k < 8 ==> md[k] == old(md[k])
    {
      md[i] := PicoPlus(md[i], vars[i]);
    }
    for i := 0 to 8
      invariant forall k :: 0 <= k < i ==> md[k] == Mask32(PicoPlus(old(md[k]), vars[k]))
      invariant forall k :: i <= k < 8 ==> md[k] == PicoPlus(old(md[k]), vars[k])
    {
      md[i] := Mask32(md[i]);
    }
  }

  /** hash256_block: one block goes into the message digest. */
  method Hash256Block(md: array<Wide>, block: seq<Octet>, ghost s: State)
    requires md.Length == 8 && md[..] == WideState(s) && |block| == 64
    modifies md
    ensures md[..] == WideState(Compress(s, block))
  {
    hide Schedule, Rounds, WideState, Plus, PicoPlus, Mask32;
    var w := new Wide[64](_ => 0);
    BlockWords(w, block);
    ScheduleWords(w, block);
    var vars := RunRounds(md[..], w, s, block);
    AddMasked(md, vars);
    AddWide(s, Rounds(s, Schedule(block, 64), 64), md[..]);
  }

  lemma AddWide(s: State, t: State, sums: seq<Wide>)
    requires |sums| == 8
    requires forall k :: 0 <= k < 8 ==> sums[k] == Mask32(PicoPlus(WideState(s)[k], WideState(t)[k]))
    ensures sums == WideState(AddStates(s, t))
  {
    WideStateAt(s);
    WideStateAt(t);
    WideStateAt(AddStates(s, t));
    WordsOfSum(s, t);
    hide *;
    forall k | 0 <= k < 8
      ensures sums[k] == WideState(AddStates(s, t))[k]
    {
      WideSum(Words(s)[k], Words(t)[k]);
    }
  }

  lemma WideStateAt(s: State)
    ensures forall k :: 0 <= k < 8 ==> WideState(s)[k] == Widen(Words(s)[k])
  {
    hide Widen;
  }

  lemma WordsOfSum(s: State, t: State)
    ensures forall k :: 0 <= k < 8 ==> Words(AddStates(s, t))[k] == Plus(Words(s)[k], Words(t)[k])
  {
    var us, ss, ts := Words(AddStates(s, t)), Words(s), Words(t);
    hide Plus;
    assert us[0] == Plus(ss[0], ts[0]) && us[1] == Plus(ss[1], ts[1]);
    assert us[2] == Plus(ss[2], ts[2]) && us[3] == Plus(ss[3], ts[3]);
    assert us[4] == Plus(ss[4], ts[4]) && us[5] == Plus(ss[5], ts[5]);
    assert us[6] == Plus(ss[6], ts[6]) && us[7] == Plus(ss[7], ts[7]);
    EightCases(us, ss, ts);
  }

  lemma EightCases(us: seq<Word>, ss: seq<Word>, ts: seq<Word>)
    requires |us| == |ss| == |ts| == 8
    requires us[0] == Plus(ss[0], ts[0]) && us[1] == Plus(ss[1], ts[1])
    requires us[2] == Plus(ss[2], ts[2]) && us[3] == Plus(ss[3], ts[3])
    requires us[4] == Plus(ss[4], ts[4]) && us[5] == Plus(ss[5], ts[5])
    requires us[6] == Plus(ss[6], ts[6]) && us[7] == Plus(ss[7], ts[7])
    ensures forall k :: 0 <= k < 8 ==> us[k] == Plus(ss[k], ts[k])
  {
    hide Plus;
    forall k: int | 0 <= k < 8
      ensures us[k] == Plus(ss[k], ts[k])
    {
      if k < 4 {
        assert k == 0 || k == 1 || k == 2 || k == 3;
      } else {
        assert k == 4 || k == 5 || k == 6 || k == 7;
      }
    }
  }
}
