/**
 The wire format of trees and paths. A tree is sent as its leaves that have not been flushed, followed by the root
 hashes of the perfect subtrees the flushed leaves form, smallest first: one for every set bit of their number.
 */
module MerkleCodec {
  import opened Bytes
  import opened Rfc6962

  function HashesBytes(hs: seq<Hash>): (b: seq<byte>)
    ensures |b| == HASH_SIZE * |hs|
  {
    if hs == [] then [] else HashesBytes(hs[..|hs| - 1]) + hs[|hs| - 1].bytes
  }

  lemma NoHashes(hs: seq<Hash>)
    ensures HashesBytes(hs[..0]) == []
  {}

  lemma HashesBytesSnoc(hs: seq<Hash>, h: Hash)
    ensures HashesBytes(hs + [h]) == HashesBytes(hs) + h.bytes
  {
    assert (hs + [h])[..|hs|] == hs;
  }

  lemma {:induction false} HashesBytesConcat(a: seq<Hash>, b: seq<Hash>)
    ensures HashesBytes(a + b) == HashesBytes(a) + HashesBytes(b)
  {
    if b == [] {
      assert a + b == a;
    } else {
      var b', h := b[..|b| - 1], b[|b| - 1];
      assert b == b' + [h];
      HashesBytesSnoc(b', h);
      hide HashesBytes;
      HashesBytesConcat(a, b');
      HashesBytesSnoc(a + b', h);
      assert a + b == (a + b') + [h];
    }
  }

  /** The hashes sent for the flushed leaves. */
  function Extras(H: HashFn, ls: seq<Hash>, f: nat): seq<Hash>
    requires f < |ls|
  {
    Lefts(AuditPath(H, f, ls))
  }

  /** The bytes of a tree with leaves ls of which f are flushed. */
  function TreeBytes(H: HashFn, ls: seq<Hash>, f: nat): seq<byte>
    requires f < |ls| || f == |ls| == 0
  {
    BigEndian(|ls| - f, 8) + BigEndian(f, 8) + HashesBytes(ls[f..])
    + if ls == [] then [] else HashesBytes(Extras(H, ls, f))
  }

  /** Leaf a is q blocks of w leaves in. */
  ghost predicate BlocksIn(q: nat, w: nat, a: nat) {
    if q == 0 then a == 0
    else if q % 2 == 1 then a >= w && BlocksIn(q / 2, 2 * w, a - w)
    else BlocksIn(q / 2, 2 * w, a)
  }

  /**
   The hashes of the blocks of w leaves that end at leaf a, where a is q blocks in: one block for every set bit of q,
   twice as wide for each next bit.
   */
  ghost function Blocks(H: HashFn, ls: seq<Hash>, q: nat, w: nat, a: nat): seq<Hash>
    requires w >= 1 && BlocksIn(q, w, a) && a <= |ls|
    decreases q
  {
    if q == 0 then []
    else if q % 2 == 1 then [TreeHash(H, ls[a - w..a])] + Blocks(H, ls, q / 2, 2 * w, a - w)
    else Blocks(H, ls, q / 2, 2 * w, a)
  }

  /** The blocks lie among the first a leaves. */
  lemma {:induction false} BlocksOfPrefix(H: HashFn, ls: seq<Hash>, ls': seq<Hash>, q: nat, w: nat, a: nat)
    requires w >= 1 && BlocksIn(q, w, a) && a <= |ls| <= |ls'| && ls == ls'[..|ls|]
    ensures Blocks(H, ls, q, w, a) == Blocks(H, ls', q, w, a)
    decreases q
  {
    if q > 0 {
      if q % 2 == 1 {
        assert ls[a - w..a] == ls'[a - w..a];
        BlocksOfPrefix(H, ls, ls', q / 2, 2 * w, a - w);
      } else {
        BlocksOfPrefix(H, ls, ls', q / 2, 2 * w, a);
      }
    }
  }

  /** w doubled e times. */
  ghost function Doubled(w: nat, e: nat): nat
    decreases e
  {
    if e == 0 then w else Doubled(2 * w, e - 1)
  }

  lemma {:induction false} DoubledOne(w: nat, e: nat)
    ensures Doubled(2 * w, e) == 2 * Doubled(w, e)
    ensures Doubled(1, e) == Pow2(e)
    decreases e
  {
    if e > 0 {
      DoubledOne(2 * w, e - 1);
      DoubledOne(1, e - 1);
    }
  }

  lemma HalveSum(q: nat, e: nat)
    requires e > 0 && q < Pow2(e)
    ensures (q + Pow2(e)) / 2 == q / 2 + Pow2(e - 1) && (q + Pow2(e)) % 2 == q % 2 && q / 2 < Pow2(e - 1)
    ensures q + Pow2(e) > 0
  {}

  lemma SameBlock(c: seq<Hash>, d: seq<Hash>, a: nat, w: nat)
    requires w <= a <= |d|
    ensures (c + d)[a + |c| - w..a + |c|] == d[a - w..a]
  {}

  lemma OneBlock(H: HashFn, c: seq<Hash>, d: seq<Hash>, w: nat)
    requires 1 <= w == |c|
    ensures BlocksIn(1, w, w) && Blocks(H, c + d, 1, w, w) == [TreeHash(H, c)]
  {
    assert (c + d)[0..w] == c;
  }

  /** The widest block comes last: it is the left subtree. */
  lemma {:induction false} BlocksSplit(H: HashFn, c: seq<Hash>, d: seq<Hash>, e: nat, q: nat, w: nat, a: nat)
    requires w >= 1 && 1 <= |c| == Doubled(w, e) && q < Pow2(e) && BlocksIn(q, w, a) && a <= |d|
    ensures BlocksIn(q + Pow2(e), w, a + |c|)
    ensures Blocks(H, c + d, q + Pow2(e), w, a + |c|) == Blocks(H, d, q, w, a) + [TreeHash(H, c)]
    decreases e
  {
    if e == 0 {
      OneBlock(H, c, d, w);
    } else {
      HalveSum(q, e);
      assert Doubled(w, e) == Doubled(2 * w, e - 1);
      hide Pow2, TreeHash, Doubled;
      if q % 2 == 1 {
        SameBlock(c, d, a, w);
        BlocksSplit(H, c, d, e - 1, q / 2, 2 * w, a - w);
      } else {
        BlocksSplit(H, c, d, e - 1, q / 2, 2 * w, a);
      }
    }
  }

  ghost predicate AreBlocks(H: HashFn, ls: seq<Hash>, f: nat)
    requires f < |ls|
  {
    BlocksIn(f, 1, f) && Extras(H, ls, f) == Blocks(H, ls, f, 1, f)
  }

  lemma ExtrasOfBranches(H: HashFn, c: seq<Hash>, d: seq<Hash>, e: nat, f: nat)
    requires Branches(c, d, e) && f < |c + d|
    requires if f < |c| then AreBlocks(H, c, f) else AreBlocks(H, d, f - |c|)
    ensures AreBlocks(H, c + d, f)
  {
    hide Blocks, BlocksIn, TreeHash, AuditPath, Lefts, Split, Pow2;
    LeftsBranches(H, f, c, d, e);
    if f < |c| {
      assert (c + d)[..|c|] == c;
      BlocksOfPrefix(H, c, c + d, f, 1, f);
    } else {
      DoubledOne(1, e);
      BlocksSplit(H, c, d, e, f - |c|, 1, f - |c|);
    }
  }

  /** The left elements of an audit path are the blocks given by the bits of the index, low bit first. */
  lemma {:induction false} ExtrasAreBlocks(H: HashFn, ls: seq<Hash>, f: nat)
    requires f < |ls|
    ensures AreBlocks(H, ls, f)
    decreases |ls|
  {
    if |ls| > 1 {
      hide AreBlocks;
      var c, d, e := BranchesOf(ls);
      if f < |c| {
        ExtrasAreBlocks(H, c, f);
      } else {
        ExtrasAreBlocks(H, d, f - |c|);
      }
      ExtrasOfBranches(H, c, d, e, f);
    }
  }

  /** The number of set bits. */
  function BitCount(n: nat): nat {
    if n == 0 then 0 else n % 2 + BitCount(n / 2)
  }

  lemma {:induction false} BitCountSmall(n: nat)
    ensures BitCount(n) <= n
  {
    if n > 0 {
      BitCountSmall(n / 2);
    }
  }

  lemma {:induction false} BlocksCount(H: HashFn, ls: seq<Hash>, q: nat, w: nat, a: nat)
    requires w >= 1 && BlocksIn(q, w, a) && a <= |ls|
    ensures |Blocks(H, ls, q, w, a)| == BitCount(q)
    decreases q
  {
    if q > 0 {
      BlocksCount(H, ls, q / 2, 2 * w, if q % 2 == 1 then a - w else a);
    }
  }

  /** One extra hash is sent for every set bit of the number of flushed leaves. */
  lemma ExtrasCount(H: HashFn, ls: seq<Hash>, f: nat)
    requires f < |ls|
    ensures |Extras(H, ls, f)| == BitCount(f)
  {
    ExtrasAreBlocks(H, ls, f);
    BlocksCount(H, ls, f, 1, f);
  }

  /** Leaves appended later do not change the extra hashes. */
  lemma ExtrasOfPrefix(H: HashFn, ls: seq<Hash>, f: nat, m: nat)
    requires f < m <= |ls|
    ensures Extras(H, ls[..m], f) == Extras(H, ls, f)
  {
    LeftsOfPrefix(H, f, m, ls);
  }

  /** The number of bytes of a segment, which is far below what 64 bits hold. */
  lemma SegmentBytes(H: HashFn, ls: seq<Hash>, from: nat, to: nat, numExtras: nat)
    requires from <= to < |ls| < 0x1_0000_0000 && numExtras == |Extras(H, ls, from)|
    ensures |TreeBytes(H, ls[..to + 1], from)|
         == (8 + 8 + (to - from + 1) * HASH_SIZE + numExtras * HASH_SIZE) % U64_LIMIT
  {
    hide Extras, HashesBytes, BigEndian;
    ExtrasOfPrefix(H, ls, from, to + 1);
    ExtrasCount(H, ls, from);
    BitCountSmall(from);
  }
}
