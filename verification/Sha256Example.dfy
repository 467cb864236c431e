/** A known digest: SHA-256 of the message "abc", worked out word by word. */
module Sha256Example {
  import opened Bytes
  import opened Sha256
  import opened Sha256Constants
  import opened Sha256Padding

  const ABC: seq<Octet> := [0x61, 0x62, 0x63]

  ghost predicate PaddedAbc(block: seq<Octet>) {
    && |block| == 64 && block[0] == 0x61 && block[1] == 0x62 && block[2] == 0x63 && block[3] == 0x80
    && (forall i :: 4 <= i < 63 ==> block[i] == 0) && block[63] == 0x18
  }

  lemma AbcPads()
    ensures PaddedAbc(Pad(ABC))
  {
    var length := BigEndian(24, 8);
    assert length[7] == 24 && forall i :: 0 <= i < 7 ==> length[i] == 0 by {
      LengthBytes();
    }
    var end := ToOctets(length);
    assert PadZeros(3) == 52 && Pad(ABC) == ABC + [0x80] + Zeros(52) + end;
    assert end[7] == 0x18 && forall i :: 0 <= i < 7 ==> end[i] == 0;
  }

  lemma LengthBytes()
    ensures BigEndian(24, 8) == [0, 0, 0, 0, 0, 0, 0, 24]
  {}

  ghost predicate Scheduled(block: seq<Octet>, ws: seq<Word>) {
    PaddedAbc(block) && ws == Schedule(block, 64)
  }

  /** A word of the schedule from the four before it. */
  lemma NextWord(block: seq<Octet>, ws: seq<Word>, t: nat, a: Word, b: Word, c: Word, d: Word, w: Word)
    requires Scheduled(block, ws) && 16 <= t < 64
    requires ws[t - 2] == a && ws[t - 7] == b && ws[t - 15] == c && ws[t - 16] == d
    requires Plus(Plus(Plus(SmallSigma1(a), b), SmallSigma0(c)), d) == w
    ensures ws[t] == w
  {
    hide Schedule, Plus, SmallSigma0, SmallSigma1, WordOf;
    ScheduleAt(block, t);
  }

  lemma EmptyWord(block: seq<Octet>, ws: seq<Word>, t: nat)
    requires Scheduled(block, ws) && 1 <= t <= 14
    ensures ws[t] == 0
  {
    hide Schedule, Plus, SmallSigma0, SmallSigma1;
    ScheduleAt(block, t);
  }

  lemma WordsFrom0(block: seq<Octet>, ws: seq<Word>)
    requires Scheduled(block, ws)
    ensures ws[0] == 0x61626380 && ws[1] == 0x00000000 && ws[2] == 0x00000000 && ws[3] == 0x00000000
    ensures ws[4] == 0x00000000 && ws[5] == 0x00000000 && ws[6] == 0x00000000 && ws[7] == 0x00000000
    ensures ws[8] == 0x00000000 && ws[9] == 0x00000000 && ws[10] == 0x00000000 && ws[11] == 0x00000000
    ensures ws[12] == 0x00000000 && ws[13] == 0x00000000 && ws[14] == 0x00000000 && ws[15] == 0x00000018
  {
    hide Schedule, Plus, SmallSigma0, SmallSigma1;
    ScheduleAt(block, 0);
    ScheduleAt(block, 15);
    EmptyWord(block, ws, 1);
    EmptyWord(block, ws, 2);
    EmptyWord(block, ws, 3);
    EmptyWord(block, ws, 4);
    EmptyWord(block, ws, 5);
    EmptyWord(block, ws, 6);
    EmptyWord(block, ws, 7);
    EmptyWord(block, ws, 8);
    EmptyWord(block, ws, 9);
    EmptyWord(block, ws, 10);
    EmptyWord(block, ws, 11);
    EmptyWord(block, ws, 12);
    EmptyWord(block, ws, 13);
    EmptyWord(block, ws, 14);
  }

  lemma WordsFrom16(block: seq<Octet>, ws: seq<Word>)
    requires Scheduled(block, ws)
    requires ws[0] == 0x61626380 && ws[1] == 0x00000000 && ws[2] == 0x00000000 && ws[3] == 0x00000000
    requires ws[4] == 0x00000000 && ws[5] == 0x00000000 && ws[6] == 0x00000000 && ws[7] == 0x00000000
    requires ws[8] == 0x00000000 && ws[9] == 0x00000000 && ws[10] == 0x00000000 && ws[11] == 0x00000000
    requires ws[12] == 0x00000000 && ws[13] == 0x00000000 && ws[14] == 0x00000000 && ws[15] == 0x00000018
    ensures ws[16] == 0x61626380 && ws[17] == 0x000f0000 && ws[18] == 0x7da86405 && ws[19] == 0x600003c6
    ensures ws[20] == 0x3e9d7b78 && ws[21] == 0x0183fc00 && ws[22] == 0x12dcbfdb && ws[23] == 0xe2e2c38e
  {
    hide Schedule, Scheduled;
    NextWord(block, ws, 16, 0x00000000, 0x00000000, 0x00000000, 0x61626380, 0x61626380);
    NextWord(block, ws, 17, 0x00000018, 0x00000000, 0x00000000, 0x00000000, 0x000f0000);
    NextWord(block, ws, 18, 0x61626380, 0x00000000, 0x00000000, 0x00000000, 0x7da86405);
    NextWord(block, ws, 19, 0x000f0000, 0x00000000, 0x00000000, 0x00000000, 0x600003c6);
    NextWord(block, ws, 20, 0x7da86405, 0x00000000, 0x00000000, 0x00000000, 0x3e9d7b78);
    NextWord(block, ws, 21, 0x600003c6, 0x00000000, 0x00000000, 0x00000000, 0x0183fc00);
    NextWord(block, ws, 22, 0x3e9d7b78, 0x00000018, 0x00000000, 0x00000000, 0x12dcbfdb);
    NextWord(block, ws, 23, 0x0183fc00, 0x61626380, 0x00000000, 0x00000000, 0xe2e2c38e);
  }

  lemma WordsFrom24(block: seq<Octet>, ws: seq<Word>)
    requires Scheduled(block, ws)
    requires ws[8] == 0x00000000 && ws[9] == 0x00000000 && ws[10] == 0x00000000 && ws[11] == 0x00000000
    requires ws[12] == 0x00000000 && ws[13] == 0x00000000 && ws[14] == 0x00000000 && ws[15] == 0x00000018
    requires ws[16] == 0x61626380 && ws[17] == 0x000f0000 && ws[18] == 0x7da86405 && ws[19] == 0x600003c6
    requires ws[20] == 0x3e9d7b78 && ws[21] == 0x0183fc00 && ws[22] == 0x12dcbfdb && ws[23] == 0xe2e2c38e
    ensures ws[24] == 0xc8215c1a && ws[25] == 0xb73679a2 && ws[26] == 0xe5bc3909 && ws[27] == 0x32663c5b
    ensures ws[28] == 0x9d209d67 && ws[29] == 0xec8726cb && ws[30] == 0x702138a4 && ws[31] == 0xd3b7973b
  {
    hide Schedule, Scheduled;
    NextWord(block, ws, 24, 0x12dcbfdb, 0x000f0000, 0x00000000, 0x00000000, 0xc8215c1a);
    NextWord(block, ws, 25, 0xe2e2c38e, 0x7da86405, 0x00000000, 0x00000000, 0xb73679a2);
    NextWord(block, ws, 26, 0xc8215c1a, 0x600003c6, 0x00000000, 0x00000000, 0xe5bc3909);
    NextWord(block, ws, 27, 0xb73679a2, 0x3e9d7b78, 0x00000000, 0x00000000, 0x32663c5b);
    NextWord(block, ws, 28, 0xe5bc3909, 0x0183fc00, 0x00000000, 0x00000000, 0x9d209d67);
    NextWord(block, ws, 29, 0x32663c5b, 0x12dcbfdb, 0x00000000, 0x00000000, 0xec8726cb);
    NextWord(block, ws, 30, 0x9d209d67, 0xe2e2c38e, 0x00000018, 0x00000000, 0x702138a4);
    NextWord(block, ws, 31, 0xec8726cb, 0xc8215c1a, 0x61626380, 0x00000018, 0xd3b7973b);
  }

  lemma WordsFrom32(block: seq<Octet>, ws: seq<Word>)
    requires Scheduled(block, ws)
    requires ws[16] == 0x61626380 && ws[17] == 0x000f0000 && ws[18] == 0x7da86405 && ws[19] == 0x600003c6
    requires ws[20] == 0x3e9d7b78 && ws[21] == 0x0183fc00 && ws[22] == 0x12dcbfdb && ws[23] == 0xe2e2c38e
    requires ws[24] == 0xc8215c1a && ws[25] == 0xb73679a2 && ws[26] == 0xe5bc3909 && ws[27] == 0x32663c5b
    requires ws[28] == 0x9d209d67 && ws[29] == 0xec8726cb && ws[30] == 0x702138a4 && ws[31] == 0xd3b7973b
    ensures ws[32] == 0x93f5997f && ws[33] == 0x3b68ba73 && ws[34] == 0xaff4ffc1 && ws[35] == 0xf10a5c62
    ensures ws[36] == 0x0a8b3996 && ws[37] == 0x72af830a && ws[38] == 0x9409e33e && ws[39] == 0x24641522
  {
    hide Schedule, Scheduled;
    NextWord(block, ws, 32, 0x702138a4, 0xb73679a2, 0x000f0000, 0x61626380, 0x93f5997f);
    NextWord(block, ws, 33, 0xd3b7973b, 0xe5bc3909, 0x7da86405, 0x000f0000, 0x3b68ba73);
    NextWord(block, ws, 34, 0x93f5997f, 0x32663c5b, 0x600003c6, 0x7da86405, 0xaff4ffc1);
    NextWord(block, ws, 35, 0x3b68ba73, 0x9d209d67, 0x3e9d7b78, 0x600003c6, 0xf10a5c62);
    NextWord(block, ws, 36, 0xaff4ffc1, 0xec8726cb, 0x0183fc00, 0x3e9d7b78, 0x0a8b3996);
    NextWord(block, ws, 37, 0xf10a5c62, 0x702138a4, 0x12dcbfdb, 0x0183fc00, 0x72af830a);
    NextWord(block, ws, 38, 0x0a8b3996, 0xd3b7973b, 0xe2e2c38e, 0x12dcbfdb, 0x9409e33e);
    NextWord(block, ws, 39, 0x72af830a, 0x93f5997f, 0xc8215c1a, 0xe2e2c38e, 0x24641522);
  }

  lemma WordsFrom40(block: seq<Octet>, ws: seq<Word>)
    requires Scheduled(block, ws)
    requires ws[24] == 0xc8215c1a && ws[25] == 0xb73679a2 && ws[26] == 0xe5bc3909 && ws[27] == 0x32663c5b
    requires ws[28] == 0x9d209d67 && ws[29] == 0xec8726cb && ws[30] == 0x702138a4 && ws[31] == 0xd3b7973b
    requires ws[32] == 0x93f5997f && ws[33] == 0x3b68ba73 && ws[34] == 0xaff4ffc1 && ws[35] == 0xf10a5c62
    requires ws[36] == 0x0a8b3996 && ws[37] == 0x72af830a && ws[38] == 0x9409e33e && ws[39] == 0x24641522
    ensures ws[40] == 0x9f47bf94 && ws[41] == 0xf0a64f5a && ws[42] == 0x3e246a79 && ws[43] == 0x27333ba3
    ensures ws[44] == 0x0c4763f2 && ws[45] == 0x840abf27 && ws[46] == 0x7a290d5d && ws[47] == 0x065c43da
  {
    hide Schedule, Scheduled;
    NextWord(block, ws, 40, 0x9409e33e, 0x3b68ba73, 0xb73679a2, 0xc8215c1a, 0x9f47bf94);
    NextWord(block, ws, 41, 0x24641522, 0xaff4ffc1, 0xe5bc3909, 0xb73679a2, 0xf0a64f5a);
    NextWord(block, ws, 42, 0x9f47bf94, 0xf10a5c62, 0x32663c5b, 0xe5bc3909, 0x3e246a79);
    NextWord(block, ws, 43, 0xf0a64f5a, 0x0a8b3996, 0x9d209d67, 0x32663c5b, 0x27333ba3);
    NextWord(block, ws, 44, 0x3e246a79, 0x72af830a, 0xec8726cb, 0x9d209d67, 0x0c4763f2);
    NextWord(block, ws, 45, 0x27333ba3, 0x9409e33e, 0x702138a4, 0xec8726cb, 0x840abf27);
    NextWord(block, ws, 46, 0x0c4763f2, 0x24641522, 0xd3b7973b, 0x702138a4, 0x7a290d5d);
    NextWord(block, ws, 47, 0x840abf27, 0x9f47bf94, 0x93f5997f, 0xd3b7973b, 0x065c43da);
  }

  lemma WordsFrom48(block: seq<Octet>, ws: seq<Word>)
    requires Scheduled(block, ws)
    requires ws[32] == 0x93f5997f && ws[33] == 0x3b68ba73 && ws[34] == 0xaff4ffc1 && ws[35] == 0xf10a5c62
    requires ws[36] == 0x0a8b3996 && ws[37] == 0x72af830a && ws[38] == 0x9409e33e && ws[39] == 0x24641522
    requires ws[40] == 0x9f47bf94 && ws[41] == 0xf0a64f5a && ws[42] == 0x3e246a79 && ws[43] == 0x27333ba3
    requires ws[44] == 0x0c4763f2 && ws[45] == 0x840abf27 && ws[46] == 0x7a290d5d && ws[47] == 0x065c43da
    ensures ws[48] == 0xfb3e89cb && ws[49] == 0xcc7617db && ws[50] == 0xb9e66c34 && ws[51] == 0xa9993667
    ensures ws[52] == 0x84badedd && ws[53] == 0xc21462bc && ws[54] == 0x1487472c && ws[55] == 0xb20f7a99
  {
    hide Schedule, Scheduled;
    NextWord(block, ws, 48, 0x7a290d5d, 0xf0a64f5a, 0x3b68ba73, 0x93f5997f, 0xfb3e89cb);
    NextWord(block, ws, 49, 0x065c43da, 0x3e246a79, 0xaff4ffc1, 0x3b68ba73, 0xcc7617db);
    NextWord(block, ws, 50, 0xfb3e89cb, 0x27333ba3, 0xf10a5c62, 0xaff4ffc1, 0xb9e66c34);
    NextWord(block, ws, 51, 0xcc7617db, 0x0c4763f2, 0x0a8b3996, 0xf10a5c62, 0xa9993667);
    NextWord(block, ws, 52, 0xb9e66c34, 0x840abf27, 0x72af830a, 0x0a8b3996, 0x84badedd);
    NextWord(block, ws, 53, 0xa9993667, 0x7a290d5d, 0x9409e33e, 0x72af830a, 0xc21462bc);
    NextWord(block, ws, 54, 0x84badedd, 0x065c43da, 0x24641522, 0x9409e33e, 0x1487472c);
    NextWord(block, ws, 55, 0xc21462bc, 0xfb3e89cb, 0x9f47bf94, 0x24641522, 0xb20f7a99);
  }

  lemma WordsFrom56(block: seq<Octet>, ws: seq<Word>)
    requires Scheduled(block, ws)
    requires ws[40] == 0x9f47bf94 && ws[41] == 0xf0a64f5a && ws[42] == 0x3e246a79 && ws[43] == 0x27333ba3
    requires ws[44] == 0x0c4763f2 && ws[45] == 0x840abf27 && ws[46] == 0x7a290d5d && ws[47] == 0x065c43da
    requires ws[48] == 0xfb3e89cb && ws[49] == 0xcc7617db && ws[50] == 0xb9e66c34 && ws[51] == 0xa9993667
    requires ws[52] == 0x84badedd && ws[53] == 0xc21462bc && ws[54] == 0x1487472c && ws[55] == 0xb20f7a99
    ensures ws[56] == 0xef57b9cd && ws[57] == 0xebe6b238 && ws[58] == 0x9fe3095e && ws[59] == 0x78bc8d4b
    ensures ws[60] == 0xa43fcf15 && ws[61] == 0x668b2ff8 && ws[62] == 0xeeaba2cc && ws[63] == 0x12b1edeb
  {
    hide Schedule, Scheduled;
    NextWord(block, ws, 56, 0x1487472c, 0xcc7617db, 0xf0a64f5a, 0x9f47bf94, 0xef57b9cd);
    NextWord(block, ws, 57, 0xb20f7a99, 0xb9e66c34, 0x3e246a79, 0xf0a64f5a, 0xebe6b238);
    NextWord(block, ws, 58, 0xef57b9cd, 0xa9993667, 0x27333ba3, 0x3e246a79, 0x9fe3095e);
    NextWord(block, ws, 59, 0xebe6b238, 0x84badedd, 0x0c4763f2, 0x27333ba3, 0x78bc8d4b);
    NextWord(block, ws, 60, 0x9fe3095e, 0xc21462bc, 0x840abf27, 0x0c4763f2, 0xa43fcf15);
    NextWord(block, ws, 61, 0x78bc8d4b, 0x1487472c, 0x7a290d5d, 0x840abf27, 0x668b2ff8);
    NextWord(block, ws, 62, 0xa43fcf15, 0xb20f7a99, 0x065c43da, 0x7a290d5d, 0xeeaba2cc);
    NextWord(block, ws, 63, 0x668b2ff8, 0xef57b9cd, 0xfb3e89cb, 0x065c43da, 0x12b1edeb);
  }

  ghost predicate After(ws: seq<Word>, t: nat, s: State) {
    |ws| == 64 && t <= 64 && Rounds(INITIAL, ws, t) == s
  }

  /** A round gives two new words and moves the others. */
  lemma NextState(ws: seq<Word>, t: nat, s: State, k: Word, w: Word, a: Word, e: Word) returns (s': State)
    requires After(ws, t, s) && t < 64 && K[t] == k && ws[t] == w
    requires Round(s, k, w) == State(a, s.a, s.b, s.c, e, s.e, s.f, s.g)
    ensures s' == State(a, s.a, s.b, s.c, e, s.e, s.f, s.g) && After(ws, t + 1, s')
  {
    hide Round, K;
    s' := Round(s, k, w);
  }

  const STATE_8: State := State(0x85a07b5f, 0xe5030380, 0x2b4209f5, 0x04409a6a,
                                0x0c657a79, 0x9b27a401, 0x714260ad, 0x43ada245)
  const STATE_16: State := State(0xb0fa238e, 0xc0645fde, 0xd932eb16, 0x87912990,
                                 0x07590dcd, 0x0b92f20c, 0x745a48de, 0x1e578218)
  const STATE_24: State := State(0xc5d53d8d, 0xa7a3623f, 0xc2606d6d, 0x9dc68b63,
                                 0xaa47c347, 0x49f5114a, 0xe1257970, 0x8ada8930)
  const STATE_32: State := State(0x73b33bf5, 0xea992a22, 0xa0060b30, 0x363482c9,
                                 0xba591112, 0x0109ab3a, 0xade79437, 0x6112a3b7)
  const STATE_40: State := State(0x79ea687a, 0x6dc57a8a, 0x34df1604, 0x41a65cb1,
                                 0x1efbc0a0, 0xf0781bc8, 0xa507a53d, 0x0772a26b)
  const STATE_48: State := State(0x4172328d, 0xa14c14b0, 0x72ab4b91, 0x26628815,
                                 0xfecf0bc6, 0xd57b94a9, 0xb7755da1, 0xa80f11f0)
  const STATE_56: State := State(0x38cc9913, 0x3ec45cdb, 0xf5702fdb, 0x101fd28f,
                                 0x54cb266b, 0xe50e1b4f, 0x9f4787c3, 0x529e7d00)
  const STATE_64: State := State(0x506e3058, 0xd39a2165, 0x04d24d6c, 0xb85e2ce9,
                                 0x5ef50f24, 0xfb121210, 0x948d25b6, 0x961f4894)

  lemma RoundsFrom0(ws: seq<Word>)
    requires After(ws, 0, INITIAL)
    requires ws[0] == 0x61626380 && ws[1] == 0x00000000 && ws[2] == 0x00000000 && ws[3] == 0x00000000
    requires ws[4] == 0x00000000 && ws[5] == 0x00000000 && ws[6] == 0x00000000 && ws[7] == 0x00000000
    ensures After(ws, 8, STATE_8)
  {
    hide K, After;
    ConstantsFrom0();
    var s := INITIAL;
    s := NextState(ws, 0, s, 0x428a2f98, 0x61626380, 0x5d6aebcd, 0xfa2a4622);
    s := NextState(ws, 1, s, 0x71374491, 0x00000000, 0x5a6ad9ad, 0x78ce7989);
    s := NextState(ws, 2, s, 0xb5c0fbcf, 0x00000000, 0xc8c347a7, 0xf92939eb);
    s := NextState(ws, 3, s, 0xe9b5dba5, 0x00000000, 0xd550f666, 0x24e00850);
    s := NextState(ws, 4, s, 0x3956c25b, 0x00000000, 0x04409a6a, 0x43ada245);
    s := NextState(ws, 5, s, 0x59f111f1, 0x00000000, 0x2b4209f5, 0x714260ad);
    s := NextState(ws, 6, s, 0x923f82a4, 0x00000000, 0xe5030380, 0x9b27a401);
    s := NextState(ws, 7, s, 0xab1c5ed5, 0x00000000, 0x85a07b5f, 0x0c657a79);
  }

  lemma RoundsFrom8(ws: seq<Word>)
    requires After(ws, 8, STATE_8)
    requires ws[8] == 0x00000000 && ws[9] == 0x00000000 && ws[10] == 0x00000000 && ws[11] == 0x00000000
    requires ws[12] == 0x00000000 && ws[13] == 0x00000000 && ws[14] == 0x00000000 && ws[15] == 0x00000018
    ensures After(ws, 16, STATE_16)
  {
    hide K, After;
    ConstantsFrom0();
    var s := STATE_8;
    s := NextState(ws, 8, s, 0xd807aa98, 0x00000000, 0x8e04ecb9, 0x32ca2d8c);
    s := NextState(ws, 9, s, 0x12835b01, 0x00000000, 0x8c87346b, 0x1cc92596);
    s := NextState(ws, 10, s, 0x243185be, 0x00000000, 0x4798a3f4, 0x436b23e8);
    s := NextState(ws, 11, s, 0x550c7dc3, 0x00000000, 0xf71fc5a9, 0x816fd6e9);
    s := NextState(ws, 12, s, 0x72be5d74, 0x00000000, 0x87912990, 0x1e578218);
    s := NextState(ws, 13, s, 0x80deb1fe, 0x00000000, 0xd932eb16, 0x745a48de);
    s := NextState(ws, 14, s, 0x9bdc06a7, 0x00000000, 0xc0645fde, 0x0b92f20c);
    s := NextState(ws, 15, s, 0xc19bf174, 0x00000018, 0xb0fa238e, 0x07590dcd);
  }

  lemma RoundsFrom16(ws: seq<Word>)
    requires After(ws, 16, STATE_16)
    requires ws[16] == 0x61626380 && ws[17] == 0x000f0000 && ws[18] == 0x7da86405 && ws[19] == 0x600003c6
    requires ws[20] == 0x3e9d7b78 && ws[21] == 0x0183fc00 && ws[22] == 0x12dcbfdb && ws[23] == 0xe2e2c38e
    ensures After(ws, 24, STATE_24)
  {
    hide K, After;
    ConstantsFrom16();
    var s := STATE_16;
    s := NextState(ws, 16, s, 0xe49b69c1, 0x61626380, 0x21da9a9b, 0x8034229c);
    s := NextState(ws, 17, s, 0xefbe4786, 0x000f0000, 0xc2fbd9d1, 0x846ee454);
    s := NextState(ws, 18, s, 0x0fc19dc6, 0x7da86405, 0xfe777bbf, 0xcc899961);
    s := NextState(ws, 19, s, 0x240ca1cc, 0x600003c6, 0xe1f20c33, 0xb0638179);
    s := NextState(ws, 20, s, 0x2de92c6f, 0x3e9d7b78, 0x9dc68b63, 0x8ada8930);
    s := NextState(ws, 21, s, 0x4a7484aa, 0x0183fc00, 0xc2606d6d, 0xe1257970);
    s := NextState(ws, 22, s, 0x5cb0a9dc, 0x12dcbfdb, 0xa7a3623f, 0x49f5114a);
    s := NextState(ws, 23, s, 0x76f988da, 0xe2e2c38e, 0xc5d53d8d, 0xaa47c347);
  }

  lemma RoundsFrom24(ws: seq<Word>)
    requires After(ws, 24, STATE_24)
    requires ws[24] == 0xc8215c1a && ws[25] == 0xb73679a2 && ws[26] == 0xe5bc3909 && ws[27] == 0x32663c5b
    requires ws[28] == 0x9d209d67 && ws[29] == 0xec8726cb && ws[30] == 0x702138a4 && ws[31] == 0xd3b7973b
    ensures After(ws, 32, STATE_32)
  {
    hide K, After;
    ConstantsFrom16();
    var s := STATE_24;
    s := NextState(ws, 24, s, 0x983e5152, 0xc8215c1a, 0x1c2c2838, 0x2823ef91);
    s := NextState(ws, 25, s, 0xa831c66d, 0xb73679a2, 0xcde8037d, 0x14383d8e);
    s := NextState(ws, 26, s, 0xb00327c8, 0xe5bc3909, 0xb62ec4bc, 0xc74c6516);
    s := NextState(ws, 27, s, 0xbf597fc7, 0x32663c5b, 0x77d37528, 0xedffbff8);
    s := NextState(ws, 28, s, 0xc6e00bf3, 0x9d209d67, 0x363482c9, 0x6112a3b7);
    s := NextState(ws, 29, s, 0xd5a79147, 0xec8726cb, 0xa0060b30, 0xade79437);
    s := NextState(ws, 30, s, 0x06ca6351, 0x702138a4, 0xea992a22, 0x0109ab3a);
    s := NextState(ws, 31, s, 0x14292967, 0xd3b7973b, 0x73b33bf5, 0xba591112);
  }

  lemma RoundsFrom32(ws: seq<Word>)
    requires After(ws, 32, STATE_32)
    requires ws[32] == 0x93f5997f && ws[33] == 0x3b68ba73 && ws[34] == 0xaff4ffc1 && ws[35] == 0xf10a5c62
    requires ws[36] == 0x0a8b3996 && ws[37] == 0x72af830a && ws[38] == 0x9409e33e && ws[39] == 0x24641522
    ensures After(ws, 40, STATE_40)
  {
    hide K, After;
    ConstantsFrom32();
    var s := STATE_32;
    s := NextState(ws, 32, s, 0x27b70a85, 0x93f5997f, 0x98e12507, 0x9cd9f5f6);
    s := NextState(ws, 33, s, 0x2e1b2138, 0x3b68ba73, 0xfe604df5, 0x59249dd3);
    s := NextState(ws, 34, s, 0x4d2c6dfc, 0xaff4ffc1, 0xa9a7738c, 0x085f3833);
    s := NextState(ws, 35, s, 0x53380d13, 0xf10a5c62, 0x65a0cfe4, 0xf4b002d6);
    s := NextState(ws, 36, s, 0x650a7354, 0x0a8b3996, 0x41a65cb1, 0x0772a26b);
    s := NextState(ws, 37, s, 0x766a0abb, 0x72af830a, 0x34df1604, 0xa507a53d);
    s := NextState(ws, 38, s, 0x81c2c92e, 0x9409e33e, 0x6dc57a8a, 0xf0781bc8);
    s := NextState(ws, 39, s, 0x92722c85, 0x24641522, 0x79ea687a, 0x1efbc0a0);
  }

  lemma RoundsFrom40(ws: seq<Word>)
    requires After(ws, 40, STATE_40)
    requires ws[40] == 0x9f47bf94 && ws[41] == 0xf0a64f5a && ws[42] == 0x3e246a79 && ws[43] == 0x27333ba3
    requires ws[44] == 0x0c4763f2 && ws[45] == 0x840abf27 && ws[46] == 0x7a290d5d && ws[47] == 0x065c43da
    ensures After(ws, 48, STATE_48)
  {
    hide K, After;
    ConstantsFrom32();
    var s := STATE_40;
    s := NextState(ws, 40, s, 0xa2bfe8a1, 0x9f47bf94, 0xd6670766, 0x26352d63);
    s := NextState(ws, 41, s, 0xa81a664b, 0xf0a64f5a, 0xdf46652f, 0x838b2711);
    s := NextState(ws, 42, s, 0xc24b8b70, 0x3e246a79, 0x17aa0dfe, 0xdecd4715);
    s := NextState(ws, 43, s, 0xc76c51a3, 0x27333ba3, 0x9d4baf93, 0xfda24c2e);
    s := NextState(ws, 44, s, 0xd192e819, 0x0c4763f2, 0x26628815, 0xa80f11f0);
    s := NextState(ws, 45, s, 0xd6990624, 0x840abf27, 0x72ab4b91, 0xb7755da1);
    s := NextState(ws, 46, s, 0xf40e3585, 0x7a290d5d, 0xa14c14b0, 0xd57b94a9);
    s := NextState(ws, 47, s, 0x106aa070, 0x065c43da, 0x4172328d, 0xfecf0bc6);
  }

  lemma RoundsFrom48(ws: seq<Word>)
    requires After(ws, 48, STATE_48)
    requires ws[48] == 0xfb3e89cb && ws[49] == 0xcc7617db && ws[50] == 0xb9e66c34 && ws[51] == 0xa9993667
    requires ws[52] == 0x84badedd && ws[53] == 0xc21462bc && ws[54] == 0x1487472c && ws[55] == 0xb20f7a99
    ensures After(ws, 56, STATE_56)
  {
    hide K, After;
    ConstantsFrom48();
    var s := STATE_48;
    s := NextState(ws, 48, s, 0x19a4c116, 0xfb3e89cb, 0x05757ceb, 0xbd714038);
    s := NextState(ws, 49, s, 0x1e376c08, 0xcc7617db, 0xf11bfaa8, 0x6e5c390c);
    s := NextState(ws, 50, s, 0x2748774c, 0xb9e66c34, 0x7a0508a1, 0x52f1ccf7);
    s := NextState(ws, 51, s, 0x34b0bcb5, 0xa9993667, 0x886e7a22, 0x49231c1e);
    s := NextState(ws, 52, s, 0x391c0cb3, 0x84badedd, 0x101fd28f, 0x529e7d00);
    s := NextState(ws, 53, s, 0x4ed8aa4a, 0xc21462bc, 0xf5702fdb, 0x9f4787c3);
    s := NextState(ws, 54, s, 0x5b9cca4f, 0x1487472c, 0x3ec45cdb, 0xe50e1b4f);
    s := NextState(ws, 55, s, 0x682e6ff3, 0xb20f7a99, 0x38cc9913, 0x54cb266b);
  }

  lemma RoundsFrom56(ws: seq<Word>)
    requires After(ws, 56, STATE_56)
    requires ws[56] == 0xef57b9cd && ws[57] == 0xebe6b238 && ws[58] == 0x9fe3095e && ws[59] == 0x78bc8d4b
    requires ws[60] == 0xa43fcf15 && ws[61] == 0x668b2ff8 && ws[62] == 0xeeaba2cc && ws[63] == 0x12b1edeb
    ensures After(ws, 64, STATE_64)
  {
    hide K, After;
    ConstantsFrom48();
    var s := STATE_56;
    s := NextState(ws, 56, s, 0x748f82ee, 0xef57b9cd, 0xfcd1887b, 0x9b5e906c);
    s := NextState(ws, 57, s, 0x78a5636f, 0xebe6b238, 0xc062d46f, 0x7e44008e);
    s := NextState(ws, 58, s, 0x84c87814, 0x9fe3095e, 0xffb70472, 0x6d83bfc6);
    s := NextState(ws, 59, s, 0x8cc70208, 0x78bc8d4b, 0xb6ae8fff, 0xb21bad3d);
    s := NextState(ws, 60, s, 0x90befffa, 0xa43fcf15, 0xb85e2ce9, 0x961f4894);
    s := NextState(ws, 61, s, 0xa4506ceb, 0x668b2ff8, 0x04d24d6c, 0x948d25b6);
    s := NextState(ws, 62, s, 0xbef9a3f7, 0xeeaba2cc, 0xd39a2165, 0xfb121210);
    s := NextState(ws, 63, s, 0xc67178f2, 0x12b1edeb, 0x506e3058, 0x5ef50f24);
  }

  const ABC_HASH: State := State(0xba7816bf, 0x8f01cfea, 0x414140de, 0x5dae2223,
                                 0xb00361a3, 0x96177a9c, 0xb410ff61, 0xf20015ad)

  lemma AbcCompressed(block: seq<Octet>)
    requires PaddedAbc(block)
    ensures Compress(INITIAL, block) == ABC_HASH
  {
    var ws := Schedule(block, 64);
    assert Rounds(INITIAL, ws, 0) == INITIAL;
    assert After(ws, 0, INITIAL) && Scheduled(block, ws);
    hide Schedule, Scheduled, Round, Rounds, K, PaddedAbc;
    WordsFrom0(block, ws);
    WordsFrom16(block, ws);
    WordsFrom24(block, ws);
    WordsFrom32(block, ws);
    WordsFrom40(block, ws);
    WordsFrom48(block, ws);
    WordsFrom56(block, ws);
    RoundsFrom0(ws);
    RoundsFrom8(ws);
    RoundsFrom16(ws);
    RoundsFrom24(ws);
    RoundsFrom32(ws);
    RoundsFrom40(ws);
    RoundsFrom48(ws);
    RoundsFrom56(ws);
    hide After;
    AbcSum();
  }

  lemma AbcSum()
    ensures AddStates(INITIAL, STATE_64) == ABC_HASH
  {}

  /** The digest of "abc". */
  lemma DigestOfAbc()
    ensures Hash256(ABC) == [
      0xba, 0x78, 0x16, 0xbf, 0x8f, 0x01, 0xcf, 0xea, 0x41, 0x41, 0x40, 0xde, 0x5d, 0xae, 0x22, 0x23,
      0xb0, 0x03, 0x61, 0xa3, 0x96, 0x17, 0x7a, 0x9c, 0xb4, 0x10, 0xff, 0x61, 0xf2, 0x00, 0x15, 0xad]
  {
    AbcPads();
    AbcCompressed(Pad(ABC));
    assert Fold(INITIAL, []) == INITIAL;
    hide Compress, Pad;
    FoldBlock(INITIAL, [], Pad(ABC));
    assert [] + Pad(ABC) == Pad(ABC);
    DigestWords();
  }

  lemma DigestWords()
    ensures Digest(ABC_HASH) == [
      0xba, 0x78, 0x16, 0xbf, 0x8f, 0x01, 0xcf, 0xea, 0x41, 0x41, 0x40, 0xde, 0x5d, 0xae, 0x22, 0x23,
      0xb0, 0x03, 0x61, 0xa3, 0x96, 0x17, 0x7a, 0x9c, 0xb4, 0x10, 0xff, 0x61, 0xf2, 0x00, 0x15, 0xad]
  {
    DigestParts(ABC_HASH);
    HashOctets();
    hide OctetsOf, Digest;
  }

  lemma HashOctets()
    ensures OctetsOf(ABC_HASH.a) == [0xba, 0x78, 0x16, 0xbf]
    ensures OctetsOf(ABC_HASH.b) == [0x8f, 0x01, 0xcf, 0xea]
    ensures OctetsOf(ABC_HASH.c) == [0x41, 0x41, 0x40, 0xde]
    ensures OctetsOf(ABC_HASH.d) == [0x5d, 0xae, 0x22, 0x23]
    ensures OctetsOf(ABC_HASH.e) == [0xb0, 0x03, 0x61, 0xa3]
    ensures OctetsOf(ABC_HASH.f) == [0x96, 0x17, 0x7a, 0x9c]
    ensures OctetsOf(ABC_HASH.g) == [0xb4, 0x10, 0xff, 0x61]
    ensures OctetsOf(ABC_HASH.h) == [0xf2, 0x00, 0x15, 0xad]
  {}

  lemma FirstOctets(ws: seq<Word>)
    requires ws != []
    ensures OctetsUpTo(ws, 1) == OctetsOf(ws[0])
  {}

  lemma OctetsSnoc(ws: seq<Word>, n: nat)
    requires n < |ws|
    ensures OctetsUpTo(ws, n + 1) == OctetsUpTo(ws, n) + OctetsOf(ws[n])
  {}

  lemma DigestParts(s: State)
    ensures Digest(s) == OctetsOf(s.a) + OctetsOf(s.b) + OctetsOf(s.c) + OctetsOf(s.d)
                       + OctetsOf(s.e) + OctetsOf(s.f) + OctetsOf(s.g) + OctetsOf(s.h)
  {
    var ws := Words(s);
    hide OctetsOf, OctetsUpTo;
    FirstOctets(ws);
    OctetsSnoc(ws, 1);
    OctetsSnoc(ws, 2);
    OctetsSnoc(ws, 3);
    OctetsSnoc(ws, 4);
    OctetsSnoc(ws, 5);
    OctetsSnoc(ws, 6);
    OctetsSnoc(ws, 7);
  }
}
