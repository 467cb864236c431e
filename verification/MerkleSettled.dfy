/**
 When an insertion that is not completed leaves frames behind: exactly when half the number of leaves has three or
 more set bits.
 */
module MerkleSettled {
  import opened Bytes
  import opened MerkleNode
  import opened MerkleZipper
  import opened MerkleCodec

  /** The set bits of half a number. */
  function HalfBits(n: nat): nat {
    BitCount(n / 2)
  }

  /** The number that is left of k when all but its c lowest set bits are cleared. */
  function LowBits(k: nat, c: nat): nat {
    if k == 0 || (k % 2 == 1 && c == 0) then 0 else 2 * LowBits(k / 2, c - k % 2) + k % 2
  }

  /** How many of n leaves lie below the root after insertions that are not completed. */
  function RootLeaves(n: nat): nat {
    2 * LowBits(n / 2, 2) + n % 2
  }

  lemma {:induction false} FewBits(k: nat, c: nat)
    ensures LowBits(k, c) <= k && (LowBits(k, c) == k <==> BitCount(k) <= c)
  {
    if k != 0 && (k % 2 == 0 || c > 0) {
      FewBits(k / 2, c - k % 2);
    } else if k != 0 {
      assert BitCount(k) >= 1;
    }
  }

  /** The root covers all leaves exactly when half their number has at most two set bits. */
  lemma RootLeavesAll(n: nat)
    ensures RootLeaves(n) <= n && (RootLeaves(n) == n <==> HalfBits(n) <= 2)
  {
    FewBits(n / 2, 2);
  }

  /** The first leaf below the root, of n leaves: an insertion under way leaves an even number of leaves above it. */
  function RootStart(n: nat, settled: bool): (k: nat)
    ensures k <= n && k % 2 == 0 && n - k == if settled then n else RootLeaves(n)
  {
    CutBits(n);
    if settled then 0 else n - RootLeaves(n)
  }

  lemma CutBits(n: nat)
    ensures RootLeaves(n) <= n && (n - RootLeaves(n)) % 2 == 0
  {
    hide LowBits, BitCount;
    FewBits(n / 2, 2);
    EvenRest(n, LowBits(n / 2, 2));
  }

  lemma EvenRest(n: nat, m: nat)
    requires m <= n / 2
    ensures 2 * m + n % 2 <= n && (n - (2 * m + n % 2)) % 2 == 0
  {
    var cut := n / 2 - m;
    assert n - (2 * m + n % 2) == 2 * cut;
  }

  /** A higher bit makes no difference to the lowest ones. */
  lemma {:induction false} LowBitsOfSum(e: nat, q: nat, c: nat)
    requires q < Pow2(e) && BitCount(q) >= c
    ensures LowBits(Pow2(e) + q, c) == LowBits(q, c)
    decreases e
  {
    if e > 0 {
      HalveSum(q, e);
      hide Pow2;
      if q % 2 == 0 || c > 0 {
        LowBitsOfSum(e - 1, q / 2, c - q % 2);
        NoBits(q);
      }
    }
  }

  lemma NoBits(q: nat)
    ensures q == 0 ==> forall c: nat :: LowBits(q, c) == 0
  {}

  lemma {:induction false} BitsOfSum(e: nat, q: nat)
    requires q < Pow2(e)
    ensures BitCount(Pow2(e) + q) == 1 + BitCount(q)
    decreases e
  {
    if e > 0 {
      hide Pow2, BitCount;
      HalveSum(q, e);
      BitsOfSum(e - 1, q / 2);
      BitStep(Pow2(e) + q, q);
    } else {
      assert q == 0 && Pow2(e) + q == 1;
      assert BitCount(1) == 1 + BitCount(0);
    }
  }

  lemma BitStep(n: nat, q: nat)
    requires n > 0 && n % 2 == q % 2 && BitCount(n / 2) == 1 + BitCount(q / 2)
    ensures BitCount(n) == 1 + BitCount(q)
  {}

  /** A power of two on top adds one bit to the half, unless it is one. */
  lemma HalfBitsOfSum(e: nat, q: nat)
    requires e > 0 && q < Pow2(e)
    ensures HalfBits(Pow2(e) + q) == 1 + HalfBits(q)
  {
    HalveSum(q, e);
    BitsOfSum(e - 1, q / 2);
  }

  lemma HalfBitsOfPow2(e: nat)
    ensures HalfBits(Pow2(e)) <= 1 && (e > 0 ==> HalfBits(Pow2(e)) == 1)
  {
    if e > 0 {
      HalfBitsOfSum(e, 0);
    }
  }

  /** What insertion hangs below the next node: two subtrees that are perfect, or a new leaf beside a perfect one. */
  ghost predicate JustGrown(t: Shape) {
    t.Fork? && (t.Perfect() || (t.l.Perfect() && t.r.Leaf?))
  }

  lemma GrownBits(t: Shape)
    requires t.Canonical() && JustGrown(t)
    ensures HalfBits(t.Count()) == 1
  {
    Bounds(t.l);
    Bounds(t.r);
    if t.Perfect() {
      Bounds(t);
      HalfBitsOfPow2(t.Height() - 1);
    } else {
      var e := t.l.Height() - 1;
      assert t.Count() == Pow2(e) + 1;
      if e > 0 {
        HalfBitsOfSum(e, 1);
      }
    }
  }

  /** The node above what was just hung: one bit more, or none if it is now full. */
  lemma AboveGrown(t: Shape)
    requires t.Canonical() && t.Fork? && JustGrown(t.r)
    ensures HalfBits(t.Count()) == if t.Perfect() then 1 else 2
  {
    Bounds(t.l);
    Bounds(t.r);
    GrownBits(t.r);
    if t.Perfect() {
      HalfBitsOfPow2(t.Height() - 1);
    } else {
      RightIsSmaller(t);
      HalfBitsOfSum(t.l.Height() - 1, t.r.Count());
    }
  }

  lemma RightIsSmaller(t: Shape)
    requires t.Canonical() && t.Fork? && !t.Perfect()
    ensures t.r.Count() < t.l.Count() == Pow2(t.l.Height() - 1) && t.l.Height() >= 2
  {
    Bounds(t);
    Bounds(t.l);
    Bounds(t.r);
  }

  /** Every frame above a tree that is not full adds a bit. */
  lemma {:induction false} FramesAddBits(fs: seq<Frame>, t: Shape)
    requires Plug(fs, t).Canonical() && (fs != [] ==> !t.Perfect())
    ensures t.Canonical() && HalfBits(Plug(fs, t).Count()) == |fs| + HalfBits(t.Count())
    decreases |fs|
  {
    PlugCanonical(fs, t);
    if fs != [] {
      var f, up := fs[|fs| - 1], fs[..|fs| - 1];
      var above := Fork(f.o, f.l, t);
      PlugCanonical(up, above);
      AbovePartial(above);
      hide Shape.Perfect, Pow2;
      FramesAddBits(up, above);
      RightIsSmaller(above);
      HalfBitsOfSum(f.l.Height() - 1, t.Count());
    }
  }

  /** A full node has full children, so above a tree that is not full nothing is. */
  lemma AbovePartial(t: Shape)
    requires t.Canonical() && t.Fork? && !t.r.Perfect()
    ensures !t.Perfect()
  {
    hide *;
    ForkCounts(t);
    PartialCount(t.r);
    if t.Perfect() {
      FullCount(t);
      FullPower(t.l.Count(), t.r.Count(), t.l.Height() - 1, t.r.Height() - 1);
    }
  }

  lemma ForkCounts(t: Shape)
    requires t.Canonical() && t.Fork?
    ensures 1 <= t.r.Height() <= t.l.Height() == t.Height() - 1 && t.r.Canonical()
    ensures t.Count() == t.l.Count() + t.r.Count()
    ensures t.l.Count() <= Pow2(t.l.Height() - 1) && t.r.Count() <= Pow2(t.r.Height() - 1)
  {
    hide *;
    ForkSum(t);
    Bounds(t);
    Bounds(t.l);
    Bounds(t.r);
  }

  lemma ForkSum(t: Shape)
    requires t.Canonical() && t.Fork?
    ensures t.l.Canonical() && t.r.Canonical() && t.Count() == t.l.Count() + t.r.Count()
  {
    hide Shape.Perfect, Shape.Height, Pow2, Shape.Flushed;
  }

  lemma PartialCount(t: Shape)
    requires t.Canonical() && !t.Perfect()
    ensures t.Height() >= 1 && t.Count() != Pow2(t.Height() - 1)
  {
    Bounds(t);
  }

  lemma FullCount(t: Shape)
    requires t.Perfect()
    ensures t.Height() >= 1 && t.Count() == Pow2(t.Height() - 1)
  {}

  /** Two numbers within powers of two that add up to the next power fill both. */
  lemma FullPower(l: nat, r: nat, e: nat, d: nat)
    requires d <= e && l <= Pow2(e) && r <= Pow2(d) && l + r == Pow2(e + 1)
    ensures r == Pow2(d)
  {
    if d < e {
      Pow2Strict(d, e);
    }
  }

  lemma AboveKeeps(t: Shape)
    requires t.Canonical() && t.Fork? && !t.Perfect() && HalfBits(t.r.Count()) >= 2
    ensures RootLeaves(t.Count()) == RootLeaves(t.r.Count()) && HalfBits(t.Count()) >= 2
  {
    RightIsSmaller(t);
    assert t.Count() == t.l.Count() + t.r.Count();
    hide *;
    SumKeeps(t.l.Height() - 1, t.r.Count());
  }

  lemma SumKeeps(e: nat, q: nat)
    requires e > 0 && q < Pow2(e) && HalfBits(q) >= 2
    ensures RootLeaves(Pow2(e) + q) == RootLeaves(q) && HalfBits(Pow2(e) + q) >= 2
  {
    hide Pow2, LowBits, BitCount;
    HalfBitsOfSum(e, q);
    HalveSum(q, e);
    LowBitsOfSum(e - 1, q / 2, 2);
  }

  /** Frames above a tree that is not full do not change what the root covers. */
  lemma {:induction false} FramesKeepRootLeaves(fs: seq<Frame>, t: Shape)
    requires Plug(fs, t).Canonical() && (fs != [] ==> !t.Perfect()) && HalfBits(t.Count()) >= 2
    ensures RootLeaves(Plug(fs, t).Count()) == RootLeaves(t.Count())
    decreases |fs|
  {
    PlugCanonical(fs, t);
    if fs != [] {
      var f, up := fs[|fs| - 1], fs[..|fs| - 1];
      var above := Fork(f.o, f.l, t);
      PlugCanonical(up, above);
      AbovePartial(above);
      hide Shape.Perfect, Shape.Canonical, RootLeaves, HalfBits;
      AboveKeeps(above);
      FramesKeepRootLeaves(up, above);
    }
  }

  /** What insertions leave behind: frames only above a node with two bits in half its number of leaves. */
  ghost predicate Shallow(fs: seq<Frame>, t: Shape) {
    fs != [] ==> HalfBits(t.Count()) == 2
  }

  /** How much of the tree the root covers, and whether that is all of it. */
  lemma RootShare(fs: seq<Frame>, t: Shape)
    requires Plug(fs, t).Canonical() && (fs != [] ==> !t.Perfect()) && Shallow(fs, t)
    ensures t.Canonical() && t.Count() <= Plug(fs, t).Count() && (fs != [] ==> !t.Pruned?)
    ensures fs == [] ==> t.Count() == Plug(fs, t).Count()
    ensures fs != [] ==> t.Count() == RootLeaves(Plug(fs, t).Count()) < Plug(fs, t).Count()
    ensures fs != [] ==> HalfBits(Plug(fs, t).Count()) > 2
  {
    PlugCanonical(fs, t);
    PlugCount(fs, t);
    if fs != [] {
      FramesAddBits(fs, t);
      FramesKeepRootLeaves(fs, t);
      RootLeavesAll(t.Count());
    }
  }
}
