/** The bits that steer a walk from the root to a leaf. */
module MerkleWalk {
  import opened Bytes
  import opened Rfc6962
  import opened MerkleNode
  import opened MerkleShape
  import opened MerkleZipper

  /** it << n on a 64-bit word. */
  function ShiftLeft64(it: nat, n: nat): nat {
    it * Pow2(n) % U64_LIMIT
  }

  /** The top bit of a 64-bit word. */
  predicate TopBit(it: nat) {
    it >= 0x8000_0000_0000_0000
  }

  /** At height h, the word it holds the offset rel of the leaf within its subtree, shifted to the top. */
  ghost predicate Cursor(it: nat, rel: nat, h: nat) {
    1 <= h <= MAX_HEIGHT && rel < Pow2(h - 1) && it == rel * Pow2(65 - h)
  }

  lemma MulLess(a: nat, b: nat, c: nat)
    requires a < b && c >= 1
    ensures a * c < b * c
  {}

  lemma CursorLimit(it: nat, rel: nat, h: nat)
    requires Cursor(it, rel, h)
    ensures it < U64_LIMIT
  {
    U64LimitIsPow256();
    Pow2Add(h - 1, 65 - h);
    MulLess(rel, Pow2(h - 1), Pow2(65 - h));
  }

  lemma CursorStart(index: nat, h: nat)
    requires 1 <= h <= MAX_HEIGHT && index < Pow2(h - 1)
    ensures Cursor(ShiftLeft64(index, 65 - h), index, h) && h >= 1
  {
    CursorLimit(index * Pow2(65 - h), index, h);
  }

  lemma ShiftOut(it: nat)
    requires it < U64_LIMIT
    ensures ShiftLeft64(it, 1) == if TopBit(it) then 2 * it - U64_LIMIT else 2 * it
  {
    assert Pow2(1) == 2 * Pow2(0);
  }

  lemma HalfWidth(h: nat)
    requires 2 <= h <= MAX_HEIGHT
    ensures Pow2(h - 2) * Pow2(65 - h) == 0x8000_0000_0000_0000
  {
    Pow2Add(h - 2, 65 - h);
    assert Pow2(64) == 2 * Pow2(63);
    U64LimitIsPow256();
  }

  lemma Halve(rel: nat, half: nat, w: nat)
    requires w >= 1
    ensures rel * w >= half * w <==> rel >= half
    ensures rel >= half ==> (rel - half) * (2 * w) == 2 * (rel * w) - 2 * (half * w)
    ensures rel * (2 * w) == 2 * (rel * w)
  {
    if rel < half {
      MulLess(rel, half, w);
    } else if half < rel {
      MulLess(half, rel, w);
    }
    assert (rel - half) * w == rel * w - half * w;
  }

  /** The top bit says whether the offset lies in the right half, and shifting it out leaves the rest of the offset. */
  lemma CursorStep(it: nat, rel: nat, h: nat)
    requires Cursor(it, rel, h) && h >= 2
    ensures it < U64_LIMIT
    ensures TopBit(it) <==> rel >= Pow2(h - 2)
    ensures Cursor(ShiftLeft64(it, 1), if TopBit(it) then rel - Pow2(h - 2) else rel, h - 1)
  {
    hide ShiftLeft64;
    var half, w := Pow2(h - 2), Pow2(65 - h);
    CursorLimit(it, rel, h);
    ShiftOut(it);
    HalfWidth(h);
    Halve(rel, half, w);
    assert Pow2(66 - h) == 2 * w;
  }

  /** Where a walk is: heading for the leaf at offset rel of the subtree t, at a height that t may not reach. */
  ghost predicate Heading(t: Shape, rel: nat, h: nat) {
    t.Canonical() && !t.Pruned? && t.Flushed() <= rel < t.Count() && t.Height() <= h
  }

  /** Where a height is skipped there is no right half to turn to. */
  lemma SkipHeight(t: Shape, rel: nat, h: nat)
    requires Heading(t, rel, h) && t.Height() < h
    ensures rel < Pow2(h - 2)
  {
    Bounds(t);
    Pow2Monotone(t.Height() - 1, h - 2);
  }

  /** Where the height is met, the right half is the right subtree, and the walk stays clear of flushed leaves. */
  lemma TurnAt(t: Shape, rel: nat, h: nat)
    requires Heading(t, rel, h) && t.Height() == h && h >= 2
    ensures t.Fork? && t.l.Count() == Pow2(h - 2)
    ensures if rel < Pow2(h - 2) then Heading(t.l, rel, h - 1) else Heading(t.r, rel - Pow2(h - 2), h - 1)
  {
    Bounds(t);
    if t.Fork? {
      Counts(t.l);
      Counts(t.r);
    }
  }

  /** One step of a walk. */
  lemma WalkStep(t: Shape, it: nat, rel: nat, h: nat)
    requires Heading(t, rel, h) && Cursor(it, rel, h) && h >= 2
    ensures it < U64_LIMIT
    ensures t.Height() != h ==>
      !TopBit(it) && Heading(t, rel, h - 1) && Cursor(ShiftLeft64(it, 1), rel, h - 1)
    ensures t.Height() == h ==>
      && t.Fork? && (TopBit(it) <==> rel >= t.l.Count())
      && var rel' := if TopBit(it) then rel - t.l.Count() else rel;
      Heading(if TopBit(it) then t.r else t.l, rel', h - 1) && Cursor(ShiftLeft64(it, 1), rel', h - 1)
  {
    CursorStep(it, rel, h);
    if t.Height() == h {
      TurnAt(t, rel, h);
    } else {
      SkipHeight(t, rel, h);
    }
  }

  /** A walk that has come down to height one stands at a leaf. */
  lemma Arrived(t: Shape, rel: nat)
    requires Heading(t, rel, 1)
    ensures t.Leaf? && rel == 0
  {
    Bounds(t);
  }

  /** A walk stands at the clean node cur, the root of t, with the height and the word of the source's loop. */
  ghost predicate WalkAt(H: HashFn, t: Shape, rel: nat, it: nat, h: nat, cur: Node)
    reads t.Objs()
  {
    Heading(t, rel, h) && Cursor(it, rel, h) && cur == t.o && t.Linked(H) && !t.o.dirty
  }

  lemma CleanFork(H: HashFn, t: Shape)
    requires t.Canonical() && t.Fork? && t.Linked(H) && !t.o.dirty
    ensures t.o.left == t.l.o && t.o.right == t.r.o
    ensures t.l.Linked(H) && !t.l.o.dirty && t.l.o.hash == t.l.Root(H)
    ensures t.r.Linked(H) && !t.r.o.dirty && t.r.o.hash == t.r.Root(H)
  {}

  /** The subtree on the side a walk turns to, and the offset of the leaf in it. */
  ghost function Next(t: Shape, right: bool): Shape {
    if !t.Fork? then t else if right then t.r else t.l
  }

  ghost function NextRel(t: Shape, rel: nat, right: bool): nat {
    if t.Fork? && right && rel >= t.l.Count() then rel - t.l.Count() else rel
  }

  /** What one round of the loop meets: at a node of the current height a turn, at a lower one nothing. */
  lemma WalkRound(H: HashFn, t: Shape, rel: nat, it: nat, h: nat, cur: Node)
    requires WalkAt(H, t, rel, it, h, cur) && h >= 2
    ensures it < U64_LIMIT && t.Canonical()
    ensures cur.height == h ==>
      && t.Fork? && cur.left == t.l.o && cur.right == t.r.o && (TopBit(it) <==> rel >= t.l.Count())
      && t.l.o.hash == t.l.Root(H) && t.r.o.hash == t.r.Root(H)
    ensures cur.height == h && TopBit(it) ==>
      && WalkAt(H, t.r, rel - t.l.Count(), ShiftLeft64(it, 1), h - 1, t.r.o)
      && Steps(t, rel) == [Step(cur, true)] + Steps(t.r, rel - t.l.Count())
    ensures cur.height == h && !TopBit(it) ==>
      && WalkAt(H, t.l, rel, ShiftLeft64(it, 1), h - 1, t.l.o)
      && Steps(t, rel) == [Step(cur, false)] + Steps(t.l, rel)
    ensures cur.height != h ==> !TopBit(it) && WalkAt(H, t, rel, ShiftLeft64(it, 1), h - 1, cur)
  {
    hide Cursor, ShiftLeft64;
    LinkedTop(H, t);
    WalkStep(t, it, rel, h);
    if cur.height == h {
      hide Heading, Shape.Linked;
      CleanFork(H, t);
    }
  }

  lemma WalkLinked(H: HashFn, t: Shape, rel: nat, it: nat, h: nat, cur: Node)
    requires WalkAt(H, t, rel, it, h, cur)
    ensures t.Canonical() && t.Linked(H) && !t.o.dirty && cur == t.o && t.o.height == t.Height()
    ensures !t.Pruned? && t.Flushed() <= rel < t.Count()
  {}

  lemma WalkEnd(H: HashFn, t: Shape, rel: nat, it: nat, cur: Node)
    requires WalkAt(H, t, rel, it, 1, cur)
    ensures t.Leaf? && rel == 0 && cur == t.o && cur.hash == t.h
  {
    Arrived(t, rel);
  }
}
