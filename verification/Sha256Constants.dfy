/**
 Where the constants of SHA-256 come from, sections 4.2.2 and 5.3.3 of FIPS 180-4: the first 32 bits of the fractional
 parts of the cube roots of the first 64 primes, and of the square roots of the first eight.
 */
module Sha256Constants {
  import opened Field
  import opened Sha256

  /** The first 64 primes, in rows of 16. */
  const PRIMES_0: seq<nat> := [2, 3, 5, 7, 11, 13, 17, 19, 23, 29, 31, 37, 41, 43, 47, 53]
  const PRIMES_16: seq<nat> := [59, 61, 67, 71, 73, 79, 83, 89, 97, 101, 103, 107, 109, 113, 127, 131]
  const PRIMES_32: seq<nat> := [137, 139, 149, 151, 157, 163, 167, 173, 179, 181, 191, 193, 197, 199, 211, 223]
  const PRIMES_48: seq<nat> := [227, 229, 233, 239, 241, 251, 257, 263, 269, 271, 277, 281, 283, 293, 307, 311]

  const PRIMES: seq<nat> := PRIMES_0 + PRIMES_16 + PRIMES_32 + PRIMES_48

  const TWO_32: nat := 0x1_0000_0000

  /** n is 17 or less and a prime, or no prime up to 17 divides it. */
  predicate Sieved(n: nat) {
    n == 2 || n == 3 || n == 5 || n == 7 || n == 11 || n == 13 || n == 17
    || (n > 1 && n % 2 != 0 && n % 3 != 0 && n % 5 != 0 && n % 7 != 0 && n % 11 != 0 && n % 13 != 0 && n % 17 != 0)
  }

  predicate SmallFactor(n: nat) {
    n % 2 == 0 || n % 3 == 0 || n % 5 == 0 || n % 7 == 0 || n % 11 == 0 || n % 13 == 0 || n % 17 == 0
  }

  lemma MultipleOf(q: nat, m: nat, k: nat)
    requires q > 0 && m % q == 0
    ensures m * k % q == 0
  {
    var j := m / q;
    assert m == j * q;
    assert m * k == (j * k) * q + 0;
    hide Res;
    SameResidue(q, m * k, 0, j * k);
    assert Res(q, m * k) == (m * k) % q && Res(q, 0) == 0;
  }

  lemma SmallMultiple(m: nat, k: nat)
    requires 2 <= m <= 18
    ensures SmallFactor(m * k)
  {
    if m % 2 == 0 {
      MultipleOf(2, m, k);
    } else if m % 3 == 0 {
      MultipleOf(3, m, k);
    } else if m == 5 {
      MultipleOf(5, m, k);
    } else if m == 7 {
      MultipleOf(7, m, k);
    } else if m == 11 {
      MultipleOf(11, m, k);
    } else if m == 13 {
      MultipleOf(13, m, k);
    } else {
      MultipleOf(17, m, k);
    }
  }

  /** One of two factors of a number below 19 * 19 is small. */
  lemma NoLargeFactors(n: nat, d: nat)
    requires n < 361 && 2 <= d < n && n % d == 0
    ensures SmallFactor(n)
  {
    var e := n / d;
    assert n == d * e;
    if d <= 18 {
      SmallMultiple(d, e);
    } else if e <= 1 {
      SmallProduct(d, e);
      assert false;
    } else if e <= 18 {
      assert d * e == e * d;
      SmallMultiple(e, d);
    } else {
      LargeProduct(d, e);
      assert false;
    }
  }

  lemma SmallProduct(d: nat, e: nat)
    requires e <= 1
    ensures d * e <= d
  {}

  lemma LargeProduct(d: nat, e: nat)
    requires d >= 19 && e >= 19
    ensures d * e >= 361
  {
    assert d * e >= 19 * e;
  }

  lemma SmallPrimes(n: nat)
    requires n == 2 || n == 3 || n == 5 || n == 7 || n == 11 || n == 13 || n == 17
    ensures Prime(n)
  {
    forall d | 2 <= d < n
      ensures n % d != 0
    {
      assert d == 2 || d == 3 || d == 4 || d == 5 || d == 6 || d == 7 || d == 8 || d == 9 || d == 10 || d == 11
          || d == 12 || d == 13 || d == 14 || d == 15 || d == 16;
    }
  }

  lemma SievedIsPrime(n: nat)
    requires n < 361
    ensures Sieved(n) <==> Prime(n)
  {
    if Sieved(n) {
      if n <= 17 && SmallFactor(n) {
        SmallPrimes(n);
      } else {
        forall d | 2 <= d < n
          ensures n % d != 0
        {
          if n % d == 0 {
            NoLargeFactors(n, d);
          }
        }
      }
    }
  }

  ghost predicate NextPrime(q: nat, r: nat) {
    q < r && Prime(r) && forall n :: q < n < r ==> !Prime(n)
  }

  /** Nothing from n up to r is left by the sieve. */
  predicate NoneSieved(n: nat, r: nat)
    decreases if n < r then r - n else 0
  {
    n < r ==> !Sieved(n) && NoneSieved(n + 1, r)
  }

  lemma {:induction false} NonePrime(n: nat, r: nat, k: nat)
    requires NoneSieved(n, r) && n <= k < r < 361
    ensures !Prime(k)
    decreases k - n
  {
    hide Sieved, Prime;
    if k == n {
      SievedIsPrime(k);
    } else {
      NonePrime(n + 1, r, k);
    }
  }

  lemma Next(i: nat, q: nat, from: nat, r: nat)
    requires i < 63 && |PRIMES| == 64 && PRIMES[i] == q && PRIMES[i + 1] == r && q < r < 361 && from == q + 1
    requires Sieved(r) && NoneSieved(from, r)
    ensures NextPrime(PRIMES[i], PRIMES[i + 1])
  {
    hide Prime, Sieved, NoneSieved, PRIMES;
    SievedIsPrime(r);
    forall n | q < n < r
      ensures !Prime(n)
    {
      NonePrime(from, r, n);
    }
  }

  lemma PrimesFrom0()
    ensures |PRIMES| == 64
    ensures PRIMES[0] == 2 && PRIMES[1] == 3 && PRIMES[2] == 5 && PRIMES[3] == 7
    ensures PRIMES[4] == 11 && PRIMES[5] == 13 && PRIMES[6] == 17 && PRIMES[7] == 19
    ensures PRIMES[8] == 23 && PRIMES[9] == 29 && PRIMES[10] == 31 && PRIMES[11] == 37
    ensures PRIMES[12] == 41 && PRIMES[13] == 43 && PRIMES[14] == 47 && PRIMES[15] == 53
  {}

  lemma PrimesFrom16()
    ensures |PRIMES| == 64
    ensures PRIMES[16] == 59 && PRIMES[17] == 61 && PRIMES[18] == 67 && PRIMES[19] == 71
    ensures PRIMES[20] == 73 && PRIMES[21] == 79 && PRIMES[22] == 83 && PRIMES[23] == 89
    ensures PRIMES[24] == 97 && PRIMES[25] == 101 && PRIMES[26] == 103 && PRIMES[27] == 107
    ensures PRIMES[28] == 109 && PRIMES[29] == 113 && PRIMES[30] == 127 && PRIMES[31] == 131
  {}

  lemma PrimesFrom32()
    ensures |PRIMES| == 64
    ensures PRIMES[32] == 137 && PRIMES[33] == 139 && PRIMES[34] == 149 && PRIMES[35] == 151
    ensures PRIMES[36] == 157 && PRIMES[37] == 163 && PRIMES[38] == 167 && PRIMES[39] == 173
    ensures PRIMES[40] == 179 && PRIMES[41] == 181 && PRIMES[42] == 191 && PRIMES[43] == 193
    ensures PRIMES[44] == 197 && PRIMES[45] == 199 && PRIMES[46] == 211 && PRIMES[47] == 223
  {}

  lemma PrimesFrom48()
    ensures |PRIMES| == 64
    ensures PRIMES[48] == 227 && PRIMES[49] == 229 && PRIMES[50] == 233 && PRIMES[51] == 239
    ensures PRIMES[52] == 241 && PRIMES[53] == 251 && PRIMES[54] == 257 && PRIMES[55] == 263
    ensures PRIMES[56] == 269 && PRIMES[57] == 271 && PRIMES[58] == 277 && PRIMES[59] == 281
    ensures PRIMES[60] == 283 && PRIMES[61] == 293 && PRIMES[62] == 307 && PRIMES[63] == 311
  {}

  lemma NextFrom0()
    ensures |PRIMES| == 64 && forall i :: 0 <= i < 8 ==> NextPrime(PRIMES[i], PRIMES[i + 1])
  {
    hide NextPrime, PRIMES;
    PrimesFrom0();
    Next(0, 2, 3, 3);
    Next(1, 3, 4, 5);
    Next(2, 5, 6, 7);
    Next(3, 7, 8, 11);
    Next(4, 11, 12, 13);
    Next(5, 13, 14, 17);
    Next(6, 17, 18, 19);
    Next(7, 19, 20, 23);
  }

  lemma NextFrom8()
    ensures |PRIMES| == 64 && forall i :: 8 <= i < 16 ==> NextPrime(PRIMES[i], PRIMES[i + 1])
  {
    hide NextPrime, PRIMES;
    PrimesFrom0();
    PrimesFrom16();
    Next(8, 23, 24, 29);
    Next(9, 29, 30, 31);
    Next(10, 31, 32, 37);
    Next(11, 37, 38, 41);
    Next(12, 41, 42, 43);
    Next(13, 43, 44, 47);
    Next(14, 47, 48, 53);
    Next(15, 53, 54, 59);
  }

  lemma NextFrom16()
    ensures |PRIMES| == 64 && forall i :: 16 <= i < 24 ==> NextPrime(PRIMES[i], PRIMES[i + 1])
  {
    hide NextPrime, PRIMES;
    PrimesFrom16();
    Next(16, 59, 60, 61);
    Next(17, 61, 62, 67);
    Next(18, 67, 68, 71);
    Next(19, 71, 72, 73);
    Next(20, 73, 74, 79);
    Next(21, 79, 80, 83);
    Next(22, 83, 84, 89);
    Next(23, 89, 90, 97);
  }

  lemma NextFrom24()
    ensures |PRIMES| == 64 && forall i :: 24 <= i < 32 ==> NextPrime(PRIMES[i], PRIMES[i + 1])
  {
    hide NextPrime, PRIMES;
    PrimesFrom16();
    PrimesFrom32();
    Next(24, 97, 98, 101);
    Next(25, 101, 102, 103);
    Next(26, 103, 104, 107);
    Next(27, 107, 108, 109);
    Next(28, 109, 110, 113);
    Next(29, 113, 114, 127);
    Next(30, 127, 128, 131);
    Next(31, 131, 132, 137);
  }

  lemma NextFrom32()
    ensures |PRIMES| == 64 && forall i :: 32 <= i < 40 ==> NextPrime(PRIMES[i], PRIMES[i + 1])
  {
    hide NextPrime, PRIMES;
    PrimesFrom32();
    Next(32, 137, 138, 139);
    Next(33, 139, 140, 149);
    Next(34, 149, 150, 151);
    Next(35, 151, 152, 157);
    Next(36, 157, 158, 163);
    Next(37, 163, 164, 167);
    Next(38, 167, 168, 173);
    Next(39, 173, 174, 179);
  }

  lemma NextFrom40()
    ensures |PRIMES| == 64 && forall i :: 40 <= i < 48 ==> NextPrime(PRIMES[i], PRIMES[i + 1])
  {
    hide NextPrime, PRIMES;
    PrimesFrom32();
    PrimesFrom48();
    Next(40, 179, 180, 181);
    Next(41, 181, 182, 191);
    Next(42, 191, 192, 193);
    Next(43, 193, 194, 197);
    Next(44, 197, 198, 199);
    Next(45, 199, 200, 211);
    Next(46, 211, 212, 223);
    Next(47, 223, 224, 227);
  }

  lemma NextFrom48()
    ensures |PRIMES| == 64 && forall i :: 48 <= i < 56 ==> NextPrime(PRIMES[i], PRIMES[i + 1])
  {
    hide NextPrime, PRIMES;
    PrimesFrom48();
    Next(48, 227, 228, 229);
    Next(49, 229, 230, 233);
    Next(50, 233, 234, 239);
    Next(51, 239, 240, 241);
    Next(52, 241, 242, 251);
    Next(53, 251, 252, 257);
    Next(54, 257, 258, 263);
    Next(55, 263, 264, 269);
  }

  lemma NextFrom56()
    ensures |PRIMES| == 64 && forall i :: 56 <= i < 63 ==> NextPrime(PRIMES[i], PRIMES[i + 1])
  {
    hide NextPrime, PRIMES;
    PrimesFrom48();
    Next(56, 269, 270, 271);
    Next(57, 271, 272, 277);
    Next(58, 277, 278, 281);
    Next(59, 281, 282, 283);
    Next(60, 283, 284, 293);
    Next(61, 293, 294, 307);
    Next(62, 307, 308, 311);
  }

  /** The list starts with the first prime, and each entry is followed by the next prime. */
  lemma PrimesInOrder()
    ensures |PRIMES| == 64 && PRIMES[0] == 2 && Prime(2)
    ensures forall i :: 0 <= i < 63 ==> NextPrime(PRIMES[i], PRIMES[i + 1])
  {
    hide NextPrime, Prime, PRIMES;
    SmallPrimes(2);
    PrimesFrom0();
    NextFrom0();
    NextFrom8();
    NextFrom16();
    NextFrom24();
    NextFrom32();
    NextFrom40();
    NextFrom48();
    NextFrom56();
  }

  /** It holds all primes up to its end, and nothing else. */
  lemma {:induction false} AllPrimes(n: nat, i: nat)
    requires i < |PRIMES| == 64 && n <= PRIMES[i]
    ensures Prime(n) <==> exists k :: 0 <= k <= i && PRIMES[k] == n
  {
    PrimesInOrder();
    hide PRIMES, Prime;
    if n < PRIMES[i] {
      if i == 0 {
        BelowTwo(n);
      } else if n <= PRIMES[i - 1] {
        AllPrimes(n, i - 1);
        assert NextPrime(PRIMES[i - 1], PRIMES[i]);
      } else {
        assert NextPrime(PRIMES[i - 1], PRIMES[i]);
        Increasing(n, i - 1);
      }
    } else if i > 0 {
      assert NextPrime(PRIMES[i - 1], PRIMES[i]);
    }
  }

  lemma BelowTwo(n: nat)
    requires n < 2
    ensures !Prime(n)
  {}

  lemma {:induction false} Increasing(n: nat, i: nat)
    requires i < |PRIMES| == 64 && PRIMES[i] < n
    ensures forall k :: 0 <= k <= i ==> PRIMES[k] < n
  {
    PrimesInOrder();
    hide PRIMES, Prime;
    if i > 0 {
      assert NextPrime(PRIMES[i - 1], PRIMES[i]);
      Increasing(n, i - 1);
    }
  }

  /** n is the integer part of 2^32 times the cube root of q. */
  predicate CubeRoot(n: nat, q: nat) {
    n * n * n <= q * 0x1_0000_0000_0000_0000_0000_0000 < (n + 1) * (n + 1) * (n + 1)
  }

  predicate SquareRoot(n: nat, q: nat) {
    n * n <= q * 0x1_0000_0000_0000_0000 < (n + 1) * (n + 1)
  }

  /** k is the fractional part of a number with 32 binary places. */
  predicate Fraction(n: nat, k: Word) {
    n % TWO_32 == k as nat
  }

  ghost predicate FromCubeRoot(q: nat, k: Word) {
    exists n: nat :: CubeRoot(n, q) && Fraction(n, k)
  }

  ghost predicate FromSquareRoot(q: nat, k: Word) {
    exists n: nat :: SquareRoot(n, q) && Fraction(n, k)
  }

  lemma CubeAt(i: nat, q: nat, n: nat, k: Word)
    requires i < 64 && |PRIMES| == |K| == 64 && PRIMES[i] == q && K[i] == k && CubeRoot(n, q) && Fraction(n, k)
    ensures FromCubeRoot(PRIMES[i], K[i])
  {}

  lemma SquareAt(i: nat, q: nat, n: nat, k: Word)
    requires i < 8 && |PRIMES| == 64 && PRIMES[i] == q && Words(INITIAL)[i] == k && SquareRoot(n, q) && Fraction(n, k)
    ensures FromSquareRoot(PRIMES[i], Words(INITIAL)[i])
  {}

  lemma ConstantsFrom0()
    ensures |K| == 64
    ensures K[0] == 0x428a2f98 && K[1] == 0x71374491 && K[2] == 0xb5c0fbcf && K[3] == 0xe9b5dba5
    ensures K[4] == 0x3956c25b && K[5] == 0x59f111f1 && K[6] == 0x923f82a4 && K[7] == 0xab1c5ed5
    ensures K[8] == 0xd807aa98 && K[9] == 0x12835b01 && K[10] == 0x243185be && K[11] == 0x550c7dc3
    ensures K[12] == 0x72be5d74 && K[13] == 0x80deb1fe && K[14] == 0x9bdc06a7 && K[15] == 0xc19bf174
  {}

  lemma ConstantsFrom16()
    ensures |K| == 64
    ensures K[16] == 0xe49b69c1 && K[17] == 0xefbe4786 && K[18] == 0x0fc19dc6 && K[19] == 0x240ca1cc
    ensures K[20] == 0x2de92c6f && K[21] == 0x4a7484aa && K[22] == 0x5cb0a9dc && K[23] == 0x76f988da
    ensures K[24] == 0x983e5152 && K[25] == 0xa831c66d && K[26] == 0xb00327c8 && K[27] == 0xbf597fc7
    ensures K[28] == 0xc6e00bf3 && K[29] == 0xd5a79147 && K[30] == 0x06ca6351 && K[31] == 0x14292967
  {}

  lemma ConstantsFrom32()
    ensures |K| == 64
    ensures K[32] == 0x27b70a85 && K[33] == 0x2e1b2138 && K[34] == 0x4d2c6dfc && K[35] == 0x53380d13
    ensures K[36] == 0x650a7354 && K[37] == 0x766a0abb && K[38] == 0x81c2c92e && K[39] == 0x92722c85
    ensures K[40] == 0xa2bfe8a1 && K[41] == 0xa81a664b && K[42] == 0xc24b8b70 && K[43] == 0xc76c51a3
    ensures K[44] == 0xd192e819 && K[45] == 0xd6990624 && K[46] == 0xf40e3585 && K[47] == 0x106aa070
  {}

  lemma ConstantsFrom48()
    ensures |K| == 64
    ensures K[48] == 0x19a4c116 && K[49] == 0x1e376c08 && K[50] == 0x2748774c && K[51] == 0x34b0bcb5
    ensures K[52] == 0x391c0cb3 && K[53] == 0x4ed8aa4a && K[54] == 0x5b9cca4f && K[55] == 0x682e6ff3
    ensures K[56] == 0x748f82ee && K[57] == 0x78a5636f && K[58] == 0x84c87814 && K[59] == 0x8cc70208
    ensures K[60] == 0x90befffa && K[61] == 0xa4506ceb && K[62] == 0xbef9a3f7 && K[63] == 0xc67178f2
  {}

  lemma Cubes0()
    ensures |PRIMES| == |K| == 64 && forall i :: 0 <= i < 16 ==> FromCubeRoot(PRIMES[i], K[i])
  {
    hide FromCubeRoot, PRIMES, K;
    PrimesFrom0();
    ConstantsFrom0();
    CubeAt(0, 2, 0x1_428a_2f98, 0x428a2f98);
    CubeAt(1, 3, 0x1_7137_4491, 0x71374491);
    CubeAt(2, 5, 0x1_b5c0_fbcf, 0xb5c0fbcf);
    CubeAt(3, 7, 0x1_e9b5_dba5, 0xe9b5dba5);
    CubeAt(4, 11, 0x2_3956_c25b, 0x3956c25b);
    CubeAt(5, 13, 0x2_59f1_11f1, 0x59f111f1);
    CubeAt(6, 17, 0x2_923f_82a4, 0x923f82a4);
    CubeAt(7, 19, 0x2_ab1c_5ed5, 0xab1c5ed5);
    CubeAt(8, 23, 0x2_d807_aa98, 0xd807aa98);
    CubeAt(9, 29, 0x3_1283_5b01, 0x12835b01);
    CubeAt(10, 31, 0x3_2431_85be, 0x243185be);
    CubeAt(11, 37, 0x3_550c_7dc3, 0x550c7dc3);
    CubeAt(12, 41, 0x3_72be_5d74, 0x72be5d74);
    CubeAt(13, 43, 0x3_80de_b1fe, 0x80deb1fe);
    CubeAt(14, 47, 0x3_9bdc_06a7, 0x9bdc06a7);
    CubeAt(15, 53, 0x3_c19b_f174, 0xc19bf174);
  }

  lemma Cubes16()
    ensures |PRIMES| == |K| == 64 && forall i :: 16 <= i < 32 ==> FromCubeRoot(PRIMES[i], K[i])
  {
    hide FromCubeRoot, PRIMES, K;
    PrimesFrom16();
    ConstantsFrom16();
    CubeAt(16, 59, 0x3_e49b_69c1, 0xe49b69c1);
    CubeAt(17, 61, 0x3_efbe_4786, 0xefbe4786);
    CubeAt(18, 67, 0x4_0fc1_9dc6, 0x0fc19dc6);
    CubeAt(19, 71, 0x4_240c_a1cc, 0x240ca1cc);
    CubeAt(20, 73, 0x4_2de9_2c6f, 0x2de92c6f);
    CubeAt(21, 79, 0x4_4a74_84aa, 0x4a7484aa);
    CubeAt(22, 83, 0x4_5cb0_a9dc, 0x5cb0a9dc);
    CubeAt(23, 89, 0x4_76f9_88da, 0x76f988da);
    CubeAt(24, 97, 0x4_983e_5152, 0x983e5152);
    CubeAt(25, 101, 0x4_a831_c66d, 0xa831c66d);
    CubeAt(26, 103, 0x4_b003_27c8, 0xb00327c8);
    CubeAt(27, 107, 0x4_bf59_7fc7, 0xbf597fc7);
    CubeAt(28, 109, 0x4_c6e0_0bf3, 0xc6e00bf3);
    CubeAt(29, 113, 0x4_d5a7_9147, 0xd5a79147);
    CubeAt(30, 127, 0x5_06ca_6351, 0x06ca6351);
    CubeAt(31, 131, 0x5_1429_2967, 0x14292967);
  }

  lemma Cubes32()
    ensures |PRIMES| == |K| == 64 && forall i :: 32 <= i < 48 ==> FromCubeRoot(PRIMES[i], K[i])
  {
    hide FromCubeRoot, PRIMES, K;
    PrimesFrom32();
    ConstantsFrom32();
    CubeAt(32, 137, 0x5_27b7_0a85, 0x27b70a85);
    CubeAt(33, 139, 0x5_2e1b_2138, 0x2e1b2138);
    CubeAt(34, 149, 0x5_4d2c_6dfc, 0x4d2c6dfc);
    CubeAt(35, 151, 0x5_5338_0d13, 0x53380d13);
    CubeAt(36, 157, 0x5_650a_7354, 0x650a7354);
    CubeAt(37, 163, 0x5_766a_0abb, 0x766a0abb);
    CubeAt(38, 167, 0x5_81c2_c92e, 0x81c2c92e);
    CubeAt(39, 173, 0x5_9272_2c85, 0x92722c85);
    CubeAt(40, 179, 0x5_a2bf_e8a1, 0xa2bfe8a1);
    CubeAt(41, 181, 0x5_a81a_664b, 0xa81a664b);
    CubeAt(42, 191, 0x5_c24b_8b70, 0xc24b8b70);
    CubeAt(43, 193, 0x5_c76c_51a3, 0xc76c51a3);
    CubeAt(44, 197, 0x5_d192_e819, 0xd192e819);
    CubeAt(45, 199, 0x5_d699_0624, 0xd6990624);
    CubeAt(46, 211, 0x5_f40e_3585, 0xf40e3585);
    CubeAt(47, 223, 0x6_106a_a070, 0x106aa070);
  }

  lemma Cubes48()
    ensures |PRIMES| == |K| == 64 && forall i :: 48 <= i < 64 ==> FromCubeRoot(PRIMES[i], K[i])
  {
    hide FromCubeRoot, PRIMES, K;
    PrimesFrom48();
    ConstantsFrom48();
    CubeAt(48, 227, 0x6_19a4_c116, 0x19a4c116);
    CubeAt(49, 229, 0x6_1e37_6c08, 0x1e376c08);
    CubeAt(50, 233, 0x6_2748_774c, 0x2748774c);
    CubeAt(51, 239, 0x6_34b0_bcb5, 0x34b0bcb5);
    CubeAt(52, 241, 0x6_391c_0cb3, 0x391c0cb3);
    CubeAt(53, 251, 0x6_4ed8_aa4a, 0x4ed8aa4a);
    CubeAt(54, 257, 0x6_5b9c_ca4f, 0x5b9cca4f);
    CubeAt(55, 263, 0x6_682e_6ff3, 0x682e6ff3);
    CubeAt(56, 269, 0x6_748f_82ee, 0x748f82ee);
    CubeAt(57, 271, 0x6_78a5_636f, 0x78a5636f);
    CubeAt(58, 277, 0x6_84c8_7814, 0x84c87814);
    CubeAt(59, 281, 0x6_8cc7_0208, 0x8cc70208);
    CubeAt(60, 283, 0x6_90be_fffa, 0x90befffa);
    CubeAt(61, 293, 0x6_a450_6ceb, 0xa4506ceb);
    CubeAt(62, 307, 0x6_bef9_a3f7, 0xbef9a3f7);
    CubeAt(63, 311, 0x6_c671_78f2, 0xc67178f2);
  }

  /** Section 4.2.2: the constants are the fractional parts of the cube roots of the first 64 primes. */
  lemma ConstantsAreCubeRoots()
    ensures |PRIMES| == |K| == 64 && forall i :: 0 <= i < 64 ==> FromCubeRoot(PRIMES[i], K[i])
  {
    hide FromCubeRoot, PRIMES, K;
    Cubes0();
    Cubes16();
    Cubes32();
    Cubes48();
  }

  /** Section 5.3.3: the initial hash value holds those of the square roots of the first eight. */
  lemma InitialIsSquareRoots()
    ensures |PRIMES| == 64 && forall i :: 0 <= i < 8 ==> FromSquareRoot(PRIMES[i], Words(INITIAL)[i])
  {
    hide FromSquareRoot, PRIMES;
    PrimesFrom0();
    SquareAt(0, 2, 0x1_6a09_e667, 0x6a09e667);
    SquareAt(1, 3, 0x1_bb67_ae85, 0xbb67ae85);
    SquareAt(2, 5, 0x2_3c6e_f372, 0x3c6ef372);
    SquareAt(3, 7, 0x2_a54f_f53a, 0xa54ff53a);
    SquareAt(4, 11, 0x3_510e_527f, 0x510e527f);
    SquareAt(5, 13, 0x3_9b05_688c, 0x9b05688c);
    SquareAt(6, 17, 0x4_1f83_d9ab, 0x1f83d9ab);
    SquareAt(7, 19, 0x4_5be0_cd19, 0x5be0cd19);
  }
}
