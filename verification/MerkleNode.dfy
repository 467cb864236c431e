/**
 Tree nodes, and the shape of a tree: an immutable snapshot that names the node object at every position together
 with the leaf hashes below it. Pointers, sizes, heights and hashes live in the heap; Linked says that the heap
 agrees with a shape.
 */
module MerkleNode {
  import opened Bytes
  import opened Rfc6962

  /** Heights for which the source's (1 << height) stays within an int. */
  const MAX_HEIGHT: nat := 30

  /** The most leaves a tree of height MAX_HEIGHT can hold. */
  const MAX_LEAVES: nat := 0x2000_0000

  lemma MaxLeavesIsPow2()
    ensures MAX_LEAVES == Pow2(MAX_HEIGHT - 1)
  {
    assert Pow2(9) == 0x200;
    Pow2Add(9, 9);
    Pow2Add(18, 9);
    Pow2Add(27, 2);
  }

  function Max(a: nat, b: nat): nat {
    if a < b then b else a
  }

  class Node {
    var hash: Hash
    var left: Node?
    var right: Node?
    var size: nat
    var height: nat
    var dirty: bool

    /** Node::make for a leaf. */
    constructor Leaf(h: Hash)
      ensures hash == h && left == null && right == null && !dirty && size == 1 && height == 1
    {
      hash, left, right, dirty, size, height := h, null, null, false, 1, 1;
    }

    /** Node::make for an inner node: its hash is not known yet. */
    constructor Inner(l: Node, r: Node)
      ensures left == l && right == r && dirty
      ensures size == l.size + r.size + 1 && height == Max(l.height, r.height) + 1
    {
      hash := Hash(seq(HASH_SIZE, _ => 0));
      left, right, dirty := l, r, true;
      size, height := l.size + r.size + 1, Max(l.height, r.height) + 1;
    }

    /** The number of nodes below is the most that fits the height. */
    predicate IsFull()
      requires height <= MAX_HEIGHT
      reads this
    {
      size == Pow2(height) - 1
    }

    method UpdateSizes()
      modifies this`size, this`height
      ensures left != null && right != null ==>
                size == old(left.size) + old(right.size) + 1 && height == Max(old(left.height), old(right.height)) + 1
      ensures left == null || right == null ==> size == 1 && height == 1
    {
      if left != null && right != null {
        size, height := left.size + right.size + 1, Max(left.height, right.height) + 1;
      } else {
        size, height := 1, 1;
      }
    }
  }

  /**
   What a tree looks like. A Pruned node once had the leaves ls below it; flushing took its children away.
   */
  datatype Shape =
    | Leaf(o: Node, h: Hash)
    | Pruned(o: Node, ht: nat, ls: seq<Hash>)
    | Fork(o: Node, l: Shape, r: Shape)
  {
    /** All leaf hashes below, flushed ones included. */
    ghost function Content(): seq<Hash> {
      match this
      case Leaf(_, h) => [h]
      case Pruned(_, _, ls) => ls
      case Fork(_, l, r) => l.Content() + r.Content()
    }

    ghost function Count(): nat {
      |Content()|
    }

    ghost function Objs(): set<Node> {
      match this
      case Leaf(o, _) => {o}
      case Pruned(o, _, _) => {o}
      case Fork(o, l, r) => {o} + l.Objs() + r.Objs()
    }

    /** No node object occurs twice. */
    ghost predicate Distinct() {
      Fork? ==>
        && l.Distinct() && r.Distinct()
        && o !in l.Objs() && o !in r.Objs() && l.Objs() !! r.Objs()
    }

    /** How many leaves have been flushed. */
    ghost function Flushed(): nat {
      match this
      case Leaf(_, _) => 0
      case Pruned(_, _, ls) => |ls|
      case Fork(_, l, r) => l.Flushed() + r.Flushed()
    }

    /** The node objects of the leaves that have not been flushed. */
    ghost function LeafObjs(): seq<Node> {
      match this
      case Leaf(o, _) => [o]
      case Pruned(_, _, _) => []
      case Fork(_, l, r) => l.LeafObjs() + r.LeafObjs()
    }

    ghost function LastLeaf(): Node {
      if Fork? then r.LastLeaf() else o
    }

    ghost function Height(): nat {
      match this
      case Leaf(_, _) => 1
      case Pruned(_, ht, _) => ht
      case Fork(_, l, r) => Max(l.Height(), r.Height()) + 1
    }

    ghost function Size(): int {
      match this
      case Leaf(_, _) => 1
      case Pruned(_, _, ls) => 2 * |ls| - 1
      case Fork(_, l, r) => l.Size() + r.Size() + 1
    }

    ghost predicate Perfect() {
      Height() >= 1 && Count() == Pow2(Height() - 1)
    }

    /**
     The shape the source keeps: every left subtree is perfect and at least as large as its right sibling, and
     flushing has taken away exactly the maximal subtrees that lie in a prefix of the leaves.
     */
    ghost predicate Canonical() {
      match this
      case Leaf(_, _) => true
      case Pruned(_, _, _) => Perfect()
      case Fork(_, l, r) =>
        && l.Canonical() && r.Canonical()
        && l.Perfect() && r.Count() <= l.Count()
        && !r.Pruned? && (l.Pruned? || r.Flushed() == 0)
    }

    /** The recursive hash of everything below. */
    ghost function Root(H: HashFn): Hash
      requires Canonical()
      decreases this
    {
      match this
      case Leaf(_, h) => h
      case Pruned(_, _, ls) => TreeHash(H, ls)
      case Fork(_, l, r) => H(l.Root(H), r.Root(H))
    }

    /** The heap agrees with this shape. Clean nodes carry the right hash and have only clean nodes below them. */
    ghost predicate Linked(H: HashFn)
      requires Canonical()
      reads Objs()
      decreases this
    {
      && o.size == Size() && o.height == Height()
      && match this
         case Leaf(o, h) => o.left == null && o.right == null && !o.dirty && o.hash == h
         case Pruned(o, _, ls) => o.left == null && o.right == null && !o.dirty && o.hash == TreeHash(H, ls)
         case Fork(o, l, r) =>
           && o.left == l.o && o.right == r.o
           && l.Linked(H) && r.Linked(H)
           && (!o.dirty ==> !l.o.dirty && !r.o.dirty && o.hash == Root(H))
    }

    /** The tree after one more leaf: nw is the inner node made for it. */
    ghost function Insert(nw: Node, leaf: Shape): Shape {
      if Perfect() || !Fork? then Fork(nw, this, leaf) else Fork(o, l, r.Insert(nw, leaf))
    }

    /** The tree with the leaves after index i taken away; its root is stored in the node top. */
    ghost function Retract(top: Node, i: nat): Shape {
      match this
      case Leaf(_, h) => Leaf(top, h)
      case Pruned(_, ht, ls) => Pruned(top, ht, ls)
      case Fork(_, l, r) =>
        if i < l.Count() then l.Retract(top, i) else Fork(top, l, r.Retract(r.o, i - l.Count()))
    }

    ghost function Cut(): Shape {
      Pruned(o, Height(), Content())
    }

    /** The tree with the subtrees wholly before index i cut. */
    ghost function Flush(i: nat): Shape {
      if !Fork? then this
      else if i < l.Count() then Fork(o, l.Flush(i), r)
      else Fork(o, l.Cut(), r.Flush(i - l.Count()))
    }
  }

  lemma {:induction false} Bounds(t: Shape)
    requires t.Canonical()
    ensures t.Height() >= 1 && 1 <= t.Count() <= Pow2(t.Height() - 1)
    ensures t.Height() >= 2 ==> Pow2(t.Height() - 2) < t.Count()
    ensures t.Fork? ==> t.r.Height() <= t.l.Height() && t.Height() == t.l.Height() + 1
  {
    if t.Pruned? && t.Height() >= 2 {
      Pow2Strict(t.Height() - 2, t.Height() - 1);
    }
    if t.Fork? {
      Bounds(t.l);
      Bounds(t.r);
      if t.r.Height() > t.l.Height() {
        Pow2Monotone(t.l.Height() - 1, t.r.Height() - 2);
      }
    }
  }

  lemma {:induction false} Counts(t: Shape)
    requires t.Canonical()
    ensures t.Size() == 2 * t.Count() - 1
    ensures t.Flushed() <= t.Count()
    ensures !t.Pruned? ==> t.Flushed() < t.Count()
    ensures |t.LeafObjs()| == t.Count() - t.Flushed()
  {
    if t.Fork? {
      Counts(t.l);
      Counts(t.r);
    }
  }

  /** A node is full, as the source tests it, exactly when the tree below it is perfect. */
  lemma FullIsPerfect(t: Shape)
    requires t.Canonical()
    ensures t.Size() == Pow2(t.Height()) - 1 <==> t.Perfect()
    ensures t.Size() <= Pow2(t.Height()) - 1
  {
    Bounds(t);
    Counts(t);
  }

  /** The recursive hash of a canonical tree is the RFC 6962 tree hash of its leaves. */
  lemma {:induction false} RootIsTreeHash(H: HashFn, t: Shape)
    requires t.Canonical()
    ensures t.Count() >= 1 && t.Root(H) == TreeHash(H, t.Content())
  {
    Bounds(t);
    if t.Fork? {
      RootIsTreeHash(H, t.l);
      RootIsTreeHash(H, t.r);
      ForkBranches(t);
      hide Shape.Canonical, Shape.Perfect, TreeHash, Branches;
      TreeHashBranches(H, t.l.Content(), t.r.Content(), t.l.Height() - 1);
    }
  }

  /** The leaves of the two subtrees split as those of an RFC 6962 tree do. */
  lemma ForkBranches(t: Shape)
    requires t.Canonical() && t.Fork?
    ensures t.l.Canonical() && t.r.Canonical() && t.l.Height() >= 1
    ensures Branches(t.l.Content(), t.r.Content(), t.l.Height() - 1)
  {
    Bounds(t.l);
    Bounds(t.r);
  }
}
