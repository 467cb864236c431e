/** The incremental Merkle tree: TreeT of merklecpp. */
module MerkleTree {
  import opened Wrappers
  import opened Bytes
  import opened Rfc6962
  import opened MerkleNode
  import opened MerkleShape
  import opened MerkleZipper
  import opened MerkleLocal
  import opened MerkleModel
  import opened MerkleWalk
  import opened MerkleTrace
  import opened MerklePast
  import opened MerkleFlush
  import opened MerkleRetract
  import opened MerkleCodec
  import opened MerkleRow
  import opened MerkleForm
  import opened MerkleSettled

  /** A tree node waiting for its subtree, and the side the subtree goes to. */
  datatype StackElement = StackElement(n: Node, left: bool)

  ghost function StackOf(fs: seq<Frame>): seq<StackElement> {
    if fs == [] then [] else StackOf(fs[..|fs| - 1]) + [StackElement(fs[|fs| - 1].o, false)]
  }

  lemma StackOfSnoc(fs: seq<Frame>, f: Frame)
    ensures StackOf(fs + [f]) == StackOf(fs) + [StackElement(f.o, false)]
  {
    assert (fs + [f])[..|fs|] == fs;
  }

  lemma StackTop(fs: seq<Frame>)
    ensures StackOf(fs) == [] <==> fs == []
    ensures fs != [] ==>
      var rest := StackOf(fs[..|fs| - 1]);
      StackOf(fs) == rest + [StackElement(fs[|fs| - 1].o, false)] && StackOf(fs)[..|StackOf(fs)| - 1] == rest
  {}

  /**
   The state between insertions: the current root t with its frames. The heap is linked all the way, the stack holds
   the frames, and a full root has no frames.
   */
  ghost predicate Zipped(H: HashFn, fs: seq<Frame>, t: Shape, stack: seq<StackElement>)
    reads FramesObjs(fs), t.Objs()
  {
    && Plug(fs, t).Canonical() && Plug(fs, t).Distinct() && !Plug(fs, t).Pruned?
    && t.Canonical() && t.Linked(H)
    && FramesLinked(H, fs) && RightLinks(fs, t.o)
    && stack == StackOf(fs)
    && (fs != [] ==> !t.Perfect())
  }

  ghost predicate IsLeafNode(n: Node, h: Hash)
    reads n
  {
    n.left == null && n.right == null && !n.dirty && n.hash == h && n.size == 1 && n.height == 1
  }

  lemma HeightLimit(t: Shape)
    requires t.Canonical() && t.Count() <= MAX_LEAVES
    ensures t.Height() <= MAX_HEIGHT
  {
    Bounds(t);
    MaxLeavesIsPow2();
    if t.Height() > MAX_HEIGHT {
      Pow2Monotone(MAX_HEIGHT - 1, t.Height() - 2);
    }
  }

  lemma StartOpen(H: HashFn, fs: seq<Frame>, t: Shape, stack: seq<StackElement>)
    requires Zipped(H, fs, t, stack)
    ensures Open(H, fs, t) && Room(fs, t) && stack == StackOf(fs) && !t.Pruned? && t.Canonical()
    ensures Plug(fs, t).Canonical() && Plug(fs, t).Distinct() && !Plug(fs, t).Pruned?
  {
    PlugCanonical(fs, t);
    if fs != [] {
      RoomAbove(fs[|fs| - 1].o, fs[|fs| - 1].l, t);
    }
  }

  /** The test the source makes at a node: not full means there are two subtrees and room in the right one. */
  lemma FullTest(H: HashFn, t: Shape)
    requires t.Canonical() && !t.Pruned? && t.Count() <= MAX_LEAVES && t.Linked(H)
    ensures t.o.height <= MAX_HEIGHT && (t.o.IsFull() <==> t.Perfect())
    ensures !t.Perfect() ==> t.Fork? && t.o.left == t.l.o && t.o.right == t.r.o
  {
    HeightLimit(t);
    FullIsPerfect(t);
  }

  /** The source's test for turning left never holds. */
  lemma LeftIsFull(H: HashFn, t: Shape)
    requires t.Canonical() && t.Fork? && t.Count() <= MAX_LEAVES && t.l.Linked(H)
    ensures t.l.o.height <= MAX_HEIGHT && t.l.o.IsFull()
  {
    HeightLimit(t);
    Bounds(t);
    LinkedTop(H, t.l);
    FullIsPerfect(t.l);
  }

  lemma MakeOpen(H: HashFn, fs: seq<Frame>, t: Shape)
    requires t.Canonical() && t.Linked(H) && FramesLinked(H, fs) && RightLinks(fs, t.o)
    ensures Open(H, fs, t)
  {}

  lemma CountBelow(fs: seq<Frame>, t: Shape)
    requires Plug(fs, t).Canonical() && Plug(fs, t).Count() <= MAX_LEAVES
    ensures t.Count() <= MAX_LEAVES
  {
    PlugCanonical(fs, t);
  }

  lemma OpenLinked(H: HashFn, fs: seq<Frame>, t: Shape)
    requires Open(H, fs, t)
    ensures t.Linked(H)
  {}

  lemma PlugParts(fs: seq<Frame>, t: Shape)
    requires t.Fork? && Plug(fs, t).Canonical() && Plug(fs, t).Distinct()
    ensures t.o in Plug(fs, t).Objs() && t.Canonical()
    ensures t.o !in t.l.Objs() && t.o !in t.r.Objs() && t.o !in FramesObjs(fs)
  {
    PlugApart(fs, t);
    PlugCanonical(fs, t);
  }

  /** The shape after the new leaf has been put beside the full subtree, before anything is hung together. */
  lemma Planted(fs: seq<Frame>, t: Shape, nw: Node, n: Node, h: Hash)
    requires Plug(fs, t).Canonical() && Plug(fs, t).Distinct() && !Plug(fs, t).Pruned?
    requires Room(fs, t) && t.Perfect()
    requires nw !in Plug(fs, t).Objs() && n !in Plug(fs, t).Objs() && nw != n
    ensures var whole := Plug(fs, t);
      var whole' := Plug(fs, Fork(nw, t, Leaf(n, h)));
      && whole'.Canonical() && whole'.Distinct() && !whole'.Pruned?
      && whole'.Content() == whole.Content() + [h] && whole'.Flushed() == whole.Flushed()
      && whole'.LeafObjs() == whole.LeafObjs() + [n] && whole'.Objs() == whole.Objs() + {nw, n}
    ensures Fork(nw, t, Leaf(n, h)).Canonical()
  {
    var leaf := Leaf(n, h);
    InsertPlug(fs, t, nw, leaf);
    assert t.Insert(nw, leaf) == Fork(nw, t, leaf);
    InsertCanonical(Plug(fs, t), nw, n, h);
    InsertObjs(Plug(fs, t), nw, n, h);
    InsertDistinct(Plug(fs, t), nw, n, h);
    PlugCanonical(fs, Fork(nw, t, leaf));
  }

  lemma LeafLinked(H: HashFn, n: Node, h: Hash)
    requires IsLeafNode(n, h)
    ensures Leaf(n, h).Canonical() && Leaf(n, h).Linked(H) && n in Leaf(n, h).Objs()
  {}

  lemma LeafZipped(H: HashFn, n: Node, h: Hash)
    requires IsLeafNode(n, h)
    ensures Zipped(H, [], Leaf(n, h), [])
    ensures Plug([], Leaf(n, h)) == Leaf(n, h) && FramesObjs([]) + Leaf(n, h).Objs() == {n}
  {}

  /** The half of the number of leaves below a node where insertion stops. */
  ghost predicate ShallowAt(fs: seq<Frame>, t: Shape) {
    HalfBits(t.Count()) <= 2 && Shallow(fs, t)
  }

  lemma NewLeafGrown(t: Shape, nw: Node, n: Node, h: Hash)
    requires t.Perfect()
    ensures JustGrown(Fork(nw, t, Leaf(n, h)))
  {}

  lemma FullGrown(t: Shape)
    requires t.Fork?
    ensures t.Perfect() ==> JustGrown(t)
  {}

  lemma OneLeaf(n: Node, h: Hash)
    ensures var t := Leaf(n, h); t.Content() == [h] && t.LeafObjs() == [n] && t.Flushed() == 0
  {}

  lemma MakeZipped(H: HashFn, fs: seq<Frame>, t: Shape, stack: seq<StackElement>)
    requires Plug(fs, t).Canonical() && Plug(fs, t).Distinct() && !Plug(fs, t).Pruned?
    requires Open(H, fs, t) && stack == StackOf(fs) && (fs != [] ==> !t.Perfect())
    ensures Zipped(H, fs, t, stack)
    ensures Plug(fs, t).Objs() == FramesObjs(fs) + t.Objs()
  {
    PlugApart(fs, t);
  }

  lemma OpenChained(H: HashFn, fs: seq<Frame>, t: Shape)
    requires Open(H, fs, t)
    ensures FramesLinked(H, fs) && Chained(fs) && t.Linked(H)
  {}

  /** The stack ends with an inner node that has its two subtrees; everything above it is waiting. */
  ghost predicate Loaded(H: HashFn, fs: seq<Frame>, t: Shape, stack: seq<StackElement>)
    reads FramesObjs(fs), t.Objs()
  {
    && stack == StackOf(fs) + [StackElement(t.o, false)]
    && t.Fork? && Plug(fs, t).Canonical() && Plug(fs, t).Distinct() && Plug(fs, t).Count() <= MAX_LEAVES
    && t.Canonical() && t.l.Linked(H) && t.r.Linked(H)
    && t.o.left == t.l.o && t.o.right == t.r.o && t.o.dirty
    && FramesLinked(H, fs) && Chained(fs)
  }

  lemma LoadedParts(H: HashFn, fs: seq<Frame>, t: Shape, stack: seq<StackElement>)
    requires Loaded(H, fs, t, stack)
    ensures Hangs(H, t.o, t.l, t.r)
    ensures t.l.o != t.o && t.r.o != t.o
    ensures t.l.o.size == t.l.Size() && t.r.o.size == t.r.Size()
    ensures t.o !in t.l.Objs() && t.o !in t.r.Objs() && t.o !in FramesObjs(fs)
    ensures stack[|stack| - 1].n == t.o && stack[..|stack| - 1] == StackOf(fs)
  {
    PlugParts(fs, t);
    LinkedTop(H, t.l);
    LinkedTop(H, t.r);
  }

  /** After the walk down, the stack is loaded with the tree grown by the new leaf. */
  lemma LoadNewLeaf(H: HashFn, fs: seq<Frame>, t: Shape, nw: Node, n: Node, h: Hash, stack: seq<StackElement>)
    requires Plug(fs, t).Canonical() && Plug(fs, t).Distinct() && !Plug(fs, t).Pruned?
    requires Open(H, fs, t) && Room(fs, t) && t.Perfect() && Plug(fs, t).Count() < MAX_LEAVES
    requires nw !in Plug(fs, t).Objs() && n !in Plug(fs, t).Objs() && nw != n
    requires IsLeafNode(n, h) && nw.left == t.o && nw.right == n && nw.dirty
    requires stack == StackOf(fs) + [StackElement(nw, false)]
    ensures Loaded(H, fs, Fork(nw, t, Leaf(n, h)), stack)
    ensures FramesObjs(fs) <= Plug(fs, t).Objs()
  {
    hide Shape.Linked, Shape.Canonical, Plug, FramesLinked, IsLeafNode;
    Planted(fs, t, nw, n, h);
    OpenChained(H, fs, t);
    LeafLinked(H, n, h);
    PlugApart(fs, t);
  }

  /** Between insertions the frames are ready to be hung together. */
  lemma LoadRest(H: HashFn, fs: seq<Frame>, t: Shape, stack: seq<StackElement>)
    requires Zipped(H, fs, t, stack) && fs != [] && Plug(fs, t).Count() <= MAX_LEAVES
    ensures var f, up := fs[|fs| - 1], fs[..|fs| - 1];
      && Loaded(H, up, Fork(f.o, f.l, t), stack)
      && Plug(up, Fork(f.o, f.l, t)) == Plug(fs, t)
      && f.o in FramesObjs(fs) && FramesObjs(up) <= FramesObjs(fs)
      && Plug(fs, t).Objs() == FramesObjs(fs) + t.Objs()
  {
    assert Chained(fs);
    Ascend(H, fs, t);
    PlugApart(fs, t);
  }

  /** A tree without frames is linked throughout. */
  lemma NoFrames(H: HashFn, t: Shape)
    ensures Zipped(H, [], t, []) <==> t.Canonical() && t.Distinct() && !t.Pruned? && t.Linked(H)
    ensures Plug([], t) == t && FramesObjs([]) + t.Objs() == t.Objs() && StackOf([]) == []
  {}

  lemma ZippedStack(H: HashFn, fs: seq<Frame>, t: Shape, stack: seq<StackElement>)
    requires Zipped(H, fs, t, stack)
    ensures stack == [] <==> fs == []
    ensures Plug(fs, t).Canonical() && !Plug(fs, t).Pruned?
  {}

  lemma ZippedLeaf(H: HashFn, fs: seq<Frame>, t: Shape, stack: seq<StackElement>, index: nat)
    requires Zipped(H, fs, t, stack)
    requires Plug(fs, t).Flushed() <= index < Plug(fs, t).Count()
    ensures var w := Plug(fs, t);
      index - w.Flushed() < |w.LeafObjs()| && w.LeafObjs()[index - w.Flushed()].hash == w.Content()[index]
  {
    LinkedLeaves(H, t);
    PlugLeaves(H, fs, t);
    Counts(Plug(fs, t));
  }

  lemma FlushFacts(t: Shape, i: nat)
    requires InTree(t, i) && t.Distinct()
    ensures var t' := t.Flush(i);
      && t'.Canonical() && t'.Distinct() && !t'.Pruned? && t'.o == t.o
      && t'.Content() == t.Content() && t'.Flushed() == i && t'.Objs() <= t.Objs()
    ensures i - t.Flushed() <= |t.LeafObjs()| && t.Flush(i).LeafObjs() == t.LeafObjs()[i - t.Flushed()..]
  {
    FlushCanonical(t, i);
    FlushObjs(t, i);
    FlushLeafObjs(t, i);
  }

  lemma RetractFacts(t: Shape, top: Node, i: nat)
    requires InTree(t, i) && t.Distinct() && top == t.o
    ensures var t' := t.Retract(top, i);
      && t'.Canonical() && t'.Distinct() && !t'.Pruned? && t'.o == top
      && t'.Content() == t.Content()[..i + 1] && t'.Flushed() == t.Flushed() && t'.Objs() <= t.Objs()
    ensures i - t.Flushed() < |t.LeafObjs()|
    ensures t.Retract(top, i).LeafObjs() == t.LeafObjs()[..i - t.Flushed()] + [t.Retract(top, i).LastLeaf()]
  {
    RetractCanonical(t, top, i);
    RetractObjs(t, top, i);
    RetractLeafObjs(t, top, i);
    TopInObjs(t);
  }

  lemma TopInObjs(t: Shape)
    ensures t.o in t.Objs()
  {}

  class TreeT {
    const H: HashFn
    var leafNodes: seq<Node>
    var uninserted: seq<Node>
    var numFlushed: nat
    var root: Node?
    var insertionStack: seq<StackElement>
    /** statistics.num_hash */
    var numHash: nat

    ghost var frames: seq<Frame>
    ghost var tip: Option<Shape>
    ghost var pending: seq<Hash>

    /** continue_insertion_stack: walks down to the full subtree the new leaf goes beside. */
    method ContinueInsertionStack(start: Node, newLeaf: Node, ghost fs0: seq<Frame>, ghost t0: Shape)
      returns (nw: Node, ghost fs: seq<Frame>, ghost t: Shape)
      requires Zipped(H, fs0, t0, insertionStack) && start == t0.o
      requires Plug(fs0, t0).Count() < MAX_LEAVES
      modifies this`insertionStack, t0.Objs()
      ensures Plug(fs, t) == Plug(fs0, t0) && Open(H, fs, t) && Room(fs, t) && t.Perfect()
      ensures insertionStack == StackOf(fs) + [StackElement(nw, false)]
      ensures fresh(nw) && nw.left == t.o && nw.right == newLeaf && nw.dirty
    {
      hide Open, Room, FramesLinked, RightLinks, Plug, StackOf, Shape.Linked, Shape.Perfect, Shape.Objs;
      var n := start;
      fs, t := fs0, t0;
      StartOpen(H, fs0, t0, insertionStack);
      while true
        invariant n == t.o && Plug(fs, t) == Plug(fs0, t0) && t.Objs() <= t0.Objs()
        invariant t.Canonical() && !t.Pruned? && Open(H, fs, t) && Room(fs, t)
        invariant insertionStack == StackOf(fs)
        decreases t
      {
        PlugCanonical(fs, t);
        PlugApart(fs, t);
        OpenLinked(H, fs, t);
        FullTest(H, t);
        if n.IsFull() {
          assert allocated(FramesObjs(fs)) && allocated(t.Objs());
          nw := new Node.Inner(n, newLeaf);
          insertionStack := insertionStack + [StackElement(nw, false)];
          return;
        } else {
          PartsOf(H, fs, t);
          n.dirty := true;
          assert Parts(H, fs, t);
          LeftIsFull(H, t);
          if !n.left.IsFull() {
            // the left subtree is full in every canonical tree
            assert false;
          } else {
            insertionStack := insertionStack + [StackElement(n, false)];
            n := n.right;
          }
          Descend(H, fs, t);
          StackOfSnoc(fs, Frame(t.o, t.l));
          fs, t := fs + [Frame(t.o, t.l)], t.r;
        }
      }
    }

    /** Hangs a subtree below a frame, on the right. */
    method Hang(n: Node, sub: Node, ghost f: Frame, ghost t: Shape)
      requires n == f.o && sub == t.o && FrameLinked(H, f)
      requires Fork(f.o, f.l, t).Canonical() && t.Linked(H)
      requires f.o !in t.Objs() && f.o !in f.l.Objs()
      modifies n
      ensures Fork(f.o, f.l, t).Linked(H) && n.dirty
    {
      hide Shape.Linked, Shape.Objs;
      LinkedTop(H, t);
      LinkedTop(H, f.l);
      assert allocated(t.Objs()) && allocated(f.l.Objs());
      n.right := sub;
      n.dirty := true;
      n.UpdateSizes();
      assert Hangs(H, f.o, f.l, t);
      HangsLinked(H, f.o, f.l, t);
    }

    /**
     process_insertion_stack: takes subtrees off the stack and hangs each below the next, up to the first tree that
     is not full, or all of them.
     */
    method ProcessInsertionStack(complete: bool, ghost fs0: seq<Frame>, ghost t0: Shape)
      returns (result: Node, ghost fs: seq<Frame>, ghost t: Shape)
      requires Loaded(H, fs0, t0, insertionStack) && (!complete ==> JustGrown(t0))
      modifies this`insertionStack, FramesObjs(fs0), t0.o
      ensures Plug(fs, t) == Plug(fs0, t0)
      ensures Open(H, fs, t) && result == t.o && t.o.dirty
      ensures insertionStack == StackOf(fs) && (complete ==> fs == []) && (fs != [] ==> !t.Perfect())
      ensures !complete ==> ShallowAt(fs, t)
    {
      hide Plug, StackOf, FramesLinked, RightLinks, Chained, Open, JustGrown, HalfBits;
      hide Shape.Linked, Shape.Perfect, Shape.Objs, Shape.Canonical, Shape.Count;
      fs, t := fs0, t0;
      LoadedParts(H, fs, t, insertionStack);
      result := insertionStack[|insertionStack| - 1].n;
      insertionStack := insertionStack[..|insertionStack| - 1];
      assert allocated(t.l.Objs()) && allocated(t.r.Objs()) && allocated(FramesObjs(fs));
      result.UpdateSizes();
      assert Hangs(H, t.o, t.l, t.r);
      HangsLinked(H, t.o, t.l, t.r);
      while insertionStack != []
        invariant Plug(fs, t) == Plug(fs0, t0) && result == t.o && t.o.dirty
        invariant t.Canonical() && t.Linked(H) && FramesLinked(H, fs) && Chained(fs)
        invariant insertionStack == StackOf(fs) && FramesObjs(fs) <= FramesObjs(fs0)
        invariant !complete ==> JustGrown(t)
        decreases |fs|
      {
        StackTop(fs);
        Ascend(H, fs, t);
        ghost var f, up := fs[|fs| - 1], fs[..|fs| - 1];
        var n := insertionStack[|insertionStack| - 1].n;
        insertionStack := insertionStack[..|insertionStack| - 1];
        assert allocated(FramesObjs(up));
        Hang(n, result, f, t);
        result := n;
        fs, t := up, Fork(f.o, f.l, t);
        CountBelow(fs, t);
        FullTest(H, t);
        if !complete {
          AboveGrown(t);
          FullGrown(t);
        }
        if !complete && !result.IsFull() {
          MakeOpen(H, fs, t);
          return;
        }
      }
      StackTop(fs);
      if !complete {
        GrownBits(t);
      }
      OpenAtTop(H, t);
    }

    /** The tree as it would be with the insertion stack processed. */
    ghost function Whole(): Shape
      requires tip.Some?
      reads `frames, `tip
    {
      Plug(frames, tip.value)
    }

    ghost function TreeObjs(): set<Node>
      reads `frames, `tip
    {
      if tip.Some? then FramesObjs(frames) + tip.value.Objs() else {}
    }

    /** The hashes of the leaves that are in the tree. */
    ghost function Inserted(): seq<Hash>
      reads `frames, `tip
    {
      if tip.Some? then Whole().Content() else []
    }

    /** The part of the state that holds the inserted leaves is consistent. */
    ghost predicate Grown()
      reads `leafNodes, `root, `insertionStack, `frames, `tip, `numFlushed, TreeObjs()
    {
      if tip.None? then
        root == null && frames == [] && insertionStack == [] && leafNodes == [] && numFlushed == 0
      else
        && root == tip.value.o && Zipped(H, frames, tip.value, insertionStack)
        && leafNodes == Whole().LeafObjs() && numFlushed == Whole().Flushed()
        && Shallow(frames, tip.value)
    }

    /** The part of insert_leaf for a tree that holds leaves already. */
    method Grow(n: Node, ghost h: Hash)
      requires tip.Some? && root == tip.value.o && Zipped(H, frames, tip.value, insertionStack)
      requires Whole().Count() < MAX_LEAVES && IsLeafNode(n, h) && n !in TreeObjs()
      modifies this`root, this`insertionStack, this`frames, this`tip, TreeObjs()
      ensures tip.Some? && root == tip.value.o && Zipped(H, frames, tip.value, insertionStack)
      ensures Whole().Content() == old(Whole()).Content() + [h] && Whole().Flushed() == old(Whole()).Flushed()
      ensures Whole().LeafObjs() == old(Whole()).LeafObjs() + [n] && ShallowAt(frames, tip.value)
      ensures forall o :: o in TreeObjs() ==> o in old(TreeObjs()) || o == n || fresh(o)
    {
      hide Plug, StackOf, Open, Zipped, Loaded, FramesObjs, FramesLinked, RightLinks, Chained, Room, IsLeafNode;
      hide Shape.Linked, Shape.Canonical, Shape.Perfect, Shape.Distinct, Shape.Objs, Shape.Content, Shape.LeafObjs;
      hide JustGrown, ShallowAt;
      ghost var fs, t := frames, tip.value;
      StartOpen(H, fs, t, insertionStack);
      PlugApart(fs, t);
      assert allocated(FramesObjs(fs)) && allocated(t.Objs());
      var nw;
      nw, fs, t := ContinueInsertionStack(root, n, fs, t);
      assert allocated(Plug(fs, t).Objs());
      Planted(fs, t, nw, n, h);
      LoadNewLeaf(H, fs, t, nw, n, h, insertionStack);
      NewLeafGrown(t, nw, n, h);
      var newRoot;
      newRoot, fs, t := ProcessInsertionStack(false, fs, Fork(nw, t, Shape.Leaf(n, h)));
      MakeZipped(H, fs, t, insertionStack);
      root, frames, tip := newRoot, fs, Some(t);
    }

    /** insert_leaf */
    method InsertLeaf(n: Node, ghost h: Hash)
      requires Grown() && |Inserted()| < MAX_LEAVES
      requires IsLeafNode(n, h) && n !in TreeObjs()
      modifies this`leafNodes, this`root, this`insertionStack, this`frames, this`tip, TreeObjs()
      ensures Grown() && tip.Some? && ShallowAt(frames, tip.value)
      ensures Inserted() == old(Inserted()) + [h]
      ensures numFlushed == old(numFlushed) && leafNodes == old(leafNodes) + [n]
      ensures forall o :: o in TreeObjs() ==> o in old(TreeObjs()) || o == n || fresh(o)
    {
      hide Plug, Zipped, FramesObjs, IsLeafNode;
      hide Shape.Objs, Shape.Content, Shape.LeafObjs, Shape.Flushed;
      assert forall o: Node :: o in TreeObjs() ==> o as object != this;
      leafNodes := leafNodes + [n];
      if insertionStack == [] && root == null {
        root := n;
        tip := Some(Shape.Leaf(n, h));
        LeafZipped(H, n, h);
        OneLeaf(n, h);
        assert HalfBits(1) == 0;
      } else {
        Grow(n, h);
      }
    }

    /** The hashing step for one dirty node whose children are clean. */
    method HashOne(n: Node, ghost s: Shape, ghost t: Shape)
      requires t.Distinct() && s in Subs(t) && s.Fork? && n == s.o
      requires forall s :: s in Subs(t) ==> NodeOk(H, s)
      requires n.dirty && !s.l.o.dirty && !s.r.o.dirty
      modifies this`numHash, n`hash, n`dirty
      ensures forall s :: s in Subs(t) ==> NodeOk(H, s)
      ensures !n.dirty && numHash == old(numHash) + 1
      ensures n in old(DirtyNodes(t)) && DirtyNodes(t) == old(DirtyNodes(t)) - {n}
    {
      hide Shape.Canonical, Shape.Size, Shape.Height, Shape.Distinct, Shape.Objs;
      CleanChildren(H, s, t);
      n.hash := H(n.left.hash, n.right.hash);
      numHash := numHash + 1;
      n.dirty := false;
      forall s' | s' in Subs(t)
        ensures NodeOk(H, s')
      {
        if s'.o == n {
          SubsUnique(t, s, s');
        }
      }
    }

    /** hash: recomputes the hashes below a dirty node with an explicit stack, each dirty node exactly once. */
    method HashNode(node: Node, ghost t: Shape)
      requires t.Canonical() && t.Distinct() && t.Linked(H) && node == t.o && node.dirty
      modifies this`numHash, t.Objs()
      ensures t.Linked(H) && !node.dirty
      ensures numHash == old(numHash) + |old(DirtyNodes(t))|
    {
      hide Shape.Linked, Shape.Distinct, Shape.Canonical, Shape.Height, Subs, NodeOk, DirtyNodes, HashingStack;
      LinkedNodes(H, t);
      var hashingStack: seq<Node> := [node];
      ghost var subs := [t];
      StartStack(t);
      while hashingStack != []
        invariant HashingStack(t, hashingStack, subs) && |subs| == |hashingStack|
        invariant forall n :: n in hashingStack ==> n.dirty
        invariant subs == [] ==> !node.dirty
        invariant hashingStack != [] ==> hashingStack[0] == node
        invariant forall s :: s in Subs(t) ==> NodeOk(H, s)
        invariant numHash + |DirtyNodes(t)| == old(numHash + |DirtyNodes(t)|)
        decreases |DirtyNodes(t)|, if subs == [] then t else subs[|subs| - 1]
      {
        var n := hashingStack[|hashingStack| - 1];
        ghost var s := subs[|subs| - 1];
        StackPop(t, hashingStack, subs);
        DirtyIsFork(H, t, s);
        if n.left.dirty {
          StackPush(t, hashingStack, subs, s.l);
          hashingStack, subs := hashingStack + [n.left], subs + [s.l];
        } else if n.right.dirty {
          StackPush(t, hashingStack, subs, s.r);
          hashingStack, subs := hashingStack + [n.right], subs + [s.r];
        } else {
          HashOne(n, s, t);
          hashingStack, subs := hashingStack[..|hashingStack| - 1], subs[..|subs| - 1];
        }
      }
      NodesLinked(H, t);
      CleanBelow(H, t);
    }

    ghost function Nodes(): set<Node>
      reads this
    {
      TreeObjs() + set n | n in uninserted
    }

    /** All leaf hashes, flushed and not yet inserted ones included. */
    ghost function Leaves(): seq<Hash>
      reads this
    {
      Inserted() + pending
    }

    ghost predicate Waiting()
      reads this, uninserted
    {
      && |pending| == |uninserted|
      && (forall i :: 0 <= i < |uninserted| ==> IsLeafNode(uninserted[i], pending[i]) && uninserted[i] !in TreeObjs())
      && (forall i, j :: 0 <= i < j < |uninserted| ==> uninserted[i] != uninserted[j])
    }

    ghost predicate Valid()
      reads this, TreeObjs(), uninserted
    {
      Grown() && Waiting() && |Leaves()| <= MAX_LEAVES
    }

    /** No insertion is under way. */
    ghost predicate Settled()
      reads this
    {
      frames == [] && insertionStack == []
    }

    ghost function Progress(): Progress
      reads this
    {
      MerkleModel.Progress(|uninserted|, Settled())
    }

    /** Everything is inserted and hashed. */
    ghost predicate Computed()
      reads this, root
    {
      tip.Some? && uninserted == [] && pending == [] && Settled() && root == tip.value.o && !root.dirty
    }

    constructor (H: HashFn)
      ensures Valid() && this.H == H && Leaves() == [] && numFlushed == 0 && fresh(Nodes()) && Settled()
    {
      this.H := H;
      leafNodes, uninserted, numFlushed, root, insertionStack, numHash := [], [], 0, null, [], 0;
      frames, tip, pending := [], None, [];
    }

    /** insert */
    method Insert(hash: Hash)
      requires Valid() && |Leaves()| < MAX_LEAVES
      modifies this`uninserted, this`pending
      ensures Valid() && Leaves() == old(Leaves()) + [hash]
      ensures Progress() == MerkleModel.Progress(old(|uninserted|) + 1, old(Settled()))
      ensures forall o :: o in Nodes() ==> o in old(Nodes()) || fresh(o)
    {
      hide Grown, Inserted, TreeObjs;
      assert allocated(TreeObjs()) && allocated(uninserted);
      var n := new Node.Leaf(hash);
      uninserted := uninserted + [n];
      pending := pending + [hash];
    }

    /** The leaves from position i on still wait: they are untouched, apart from each other and from the tree. */
    ghost predicate WaitingFrom(i: nat)
      reads this, uninserted
    {
      && |pending| == |uninserted|
      && (forall k :: i <= k < |uninserted| ==> IsLeafNode(uninserted[k], pending[k]) && uninserted[k] !in TreeObjs())
      && (forall j, k :: 0 <= j < k < |uninserted| ==> uninserted[j] != uninserted[k])
    }

    /** The loop of insert_leaves over the waiting leaves. */
    method InsertPending()
      requires Valid()
      modifies this`leafNodes, this`root, this`insertionStack, this`frames, this`tip, this`uninserted, this`pending
      modifies Nodes()
      ensures Valid() && uninserted == [] && pending == [] && Leaves() == old(Leaves())
      ensures numFlushed == old(numFlushed) && leafNodes == old(leafNodes + uninserted)
      ensures old(uninserted) != [] ==> tip.Some? && ShallowAt(frames, tip.value)
      ensures forall o :: o in Nodes() ==> o in old(Nodes()) || fresh(o)
    {
      hide Grown, TreeObjs, Inserted, IsLeafNode, ShallowAt;
      var i := 0;
      while i < |uninserted|
        invariant i <= |uninserted| && uninserted == old(uninserted) && pending == old(pending)
        invariant Grown() && Inserted() == old(Inserted()) + pending[..i]
        invariant numFlushed == old(numFlushed) && leafNodes == old(leafNodes) + uninserted[..i]
        invariant WaitingFrom(i) && (i > 0 ==> tip.Some? && ShallowAt(frames, tip.value))
        invariant forall o :: o in TreeObjs() ==> o in old(Nodes()) || fresh(o)
      {
        assert |Inserted()| < MAX_LEAVES;
        assert allocated(TreeObjs());
        InsertLeaf(uninserted[i], pending[i]);
        i := i + 1;
      }
      assert pending[..i] == pending && uninserted[..i] == uninserted;
      assert forall n: Node :: n in TreeObjs() ==> n as object != this;
      uninserted, pending := [], [];
      assert Leaves() == old(Leaves());
    }

    /** insert_leaves */
    method InsertLeaves(complete: bool)
      requires Valid()
      modifies this`leafNodes, this`root, this`insertionStack, this`frames, this`tip, this`uninserted, this`pending
      modifies Nodes()
      ensures Valid() && uninserted == [] && pending == [] && Leaves() == old(Leaves())
      ensures numFlushed == old(numFlushed) && leafNodes == old(leafNodes + uninserted)
      ensures complete ==> Settled()
      ensures !complete && old(uninserted) != [] ==> tip.Some? && ShallowAt(frames, tip.value)
      ensures forall o :: o in Nodes() ==> o in old(Nodes()) || fresh(o)
    {
      hide Grown, TreeObjs, Inserted, Waiting, StackOf, ShallowAt;
      if uninserted != [] {
        InsertPending();
      }
      NothingPending();
      EmptyStack();
      if complete && insertionStack != [] {
        CompleteInsertion();
      }
    }

    /** Without frames the stack is empty, and the other way round. */
    lemma EmptyStack()
      requires Valid()
      ensures insertionStack == [] <==> frames == []
      ensures frames != [] ==> tip.Some?
    {
      if tip.Some? {
        ZippedStack(H, frames, tip.value, insertionStack);
      }
    }

    /** The end of insert_leaves: hangs the rest of the stack together. */
    method CompleteInsertion()
      requires Valid() && uninserted == [] && pending == [] && frames != [] && tip.Some?
      modifies this`root, this`insertionStack, this`frames, this`tip, TreeObjs()
      ensures Valid() && Leaves() == old(Leaves()) && Settled() && TreeObjs() == old(TreeObjs())
    {
      hide Plug, StackOf, Zipped, Loaded, Open, FramesObjs, IsLeafNode, Shape.Objs, Shape.Content, Shape.Canonical;
      ghost var f, up := frames[|frames| - 1], frames[..|frames| - 1];
      ghost var fs, t;
      var newRoot;
      ZippedStack(H, frames, tip.value, insertionStack);
      LoadRest(H, frames, tip.value, insertionStack);
      newRoot, fs, t := ProcessInsertionStack(true, up, Fork(f.o, f.l, tip.value));
      MakeZipped(H, fs, t, insertionStack);
      root, frames, tip := newRoot, fs, Some(t);
      NoFrames(H, t);
    }

    function NumLeaves(): nat
      reads this
    {
      numFlushed + |leafNodes| + |uninserted|
    }

    function MinIndex(): nat
      reads this
    {
      numFlushed
    }

    function MaxIndex(): nat
      reads this
    {
      if NumLeaves() == 0 then 0 else NumLeaves() - 1
    }

    lemma NumLeavesIsCount()
      requires Valid()
      ensures NumLeaves() == |Leaves()| && (numFlushed > 0 ==> numFlushed < |Inserted()|)
    {
      if tip.Some? {
        Counts(Whole());
      }
    }

    /** A settled tree with nothing waiting is one linked tree. */
    lemma SettledTree()
      requires Valid() && Settled() && tip.Some? && pending == []
      ensures var t := tip.value;
        && t == Whole() && root == t.o && t.Objs() == TreeObjs() == Nodes()
        && frames == [] && insertionStack == [] && uninserted == []
        && t.Canonical() && t.Distinct() && !t.Pruned? && t.Linked(H)
        && Leaves() == t.Content() && leafNodes == t.LeafObjs() && numFlushed == t.Flushed()
        && t.Flushed() < t.Count() <= MAX_LEAVES
    {
      NoFrames(H, tip.value);
      Counts(tip.value);
    }

    /** The root of a computed tree carries the RFC 6962 hash of all leaves, and no node is dirty. */
    lemma ComputedTree()
      requires Valid() && Computed()
      ensures root.hash == tip.value.Root(H) == TreeHash(H, Leaves())
      ensures DirtyNodes(tip.value) == {}
    {
      SettledTree();
      CleanBelow(H, tip.value);
      RootIsTreeHash(H, tip.value);
    }

    /** The part of compute_root that hashes. */
    method HashRoot()
      requires Valid() && Settled() && tip.Some? && uninserted == [] && pending == []
      modifies this`numHash, TreeObjs()
      ensures Valid() && Computed()
      ensures numHash == old(numHash) + |old(DirtyNodes(tip.value))|
    {
      hide Shape.Objs, Shape.Content, Shape.Canonical, Shape.Linked, Shape.Distinct, DirtyNodes;
      ghost var t := tip.value;
      SettledTree();
      if root.dirty {
        HashNode(root, t);
      } else {
        CleanBelow(H, t);
      }
      NoFrames(H, t);
    }

    /** compute_root: inserts everything and hashes what is dirty. */
    method ComputeRoot() returns (r: Result<()>)
      requires Valid()
      modifies this`leafNodes, this`root, this`insertionStack, this`frames, this`tip, this`uninserted, this`pending
      modifies this`numHash, Nodes()
      ensures Valid() && Leaves() == old(Leaves()) && numFlushed == old(numFlushed)
      ensures r == if old(Leaves()) == [] then Failure(EmptyTree) else Success(())
      ensures r.Success? ==> Computed()
      ensures Progress() == MerkleModel.Progress(0, true)
      ensures forall o :: o in Nodes() ==> o in old(Nodes()) || fresh(o)
    {
      hide Plug, Zipped, FramesObjs, IsLeafNode, DirtyNodes;
      InsertLeaves(true);
      NumLeavesIsCount();
      if NumLeaves() == 0 {
        return Failure(EmptyTree);
      }
      HashRoot();
      r := Success(());
    }

    ghost function Abstract(): Model
      reads this
    {
      Model(Leaves(), numFlushed)
    }

    /** What walk_to relies on: the tree is computed and the index lies in range. */
    lemma ReadyToWalk(index: nat)
      requires Valid() && Computed() && Abstract().WalkError(index) == None
      ensures 1 <= root.height <= MAX_HEIGHT
      ensures WalkAt(H, tip.value, index, if root.height > 1 then ShiftLeft64(index, 65 - root.height) else 0,
                     root.height, root)
    {
      SettledTree();
      LinkedTop(H, tip.value);
      HeightLimit(tip.value);
      Bounds(tip.value);
      CursorStart(index, root.height);
    }

    /** The loop of walk_to: goes down along the bits of the index, skipping heights the tree does not have. */
    method WalkDown(index: nat) returns (cur: Node, trace: seq<Step>)
      requires Valid() && Computed() && Abstract().WalkError(index) == None
      ensures trace == Steps(tip.value, index)
    {
      hide WalkAt, Steps, ShiftLeft64, TopBit, Grown, Waiting, Abstract;
      ReadyToWalk(index);
      cur, trace := root, [];
      var height: nat := root.height;
      var it: nat := if height > 1 then ShiftLeft64(index, 65 - height) else 0;
      ghost var t: Shape, rel: nat := tip.value, index;
      while height > 1
        invariant height >= 1 && WalkAt(H, t, rel, it, height, cur)
        invariant Steps(tip.value, index) == trace + Steps(t, rel)
        decreases height
      {
        WalkRound(H, t, rel, it, height, cur);
        if cur.height == height {
          var goRight := TopBit(it);
          trace := trace + [Step(cur, goRight)];
          cur := if goRight then cur.right else cur.left;
          t, rel := if goRight then t.r else t.l, if goRight then rel - t.l.Count() else rel;
        }
        it := ShiftLeft64(it, 1);
        height := height - 1;
      }
      WalkEnd(H, t, rel, it, cur);
      NoSteps(t, rel);
    }

    /**
     walk_to without updates: the nodes visited, in order, each with the turn taken there. The callbacks of path and
     serialise only read the nodes, so they run over this trace.
     */
    method WalkTo(index: nat) returns (r: Result<seq<Step>>)
      requires Valid()
      modifies this`leafNodes, this`root, this`insertionStack, this`frames, this`tip, this`uninserted, this`pending
      modifies this`numHash, Nodes()
      ensures Valid() && Abstract() == old(Abstract())
      ensures match Abstract().WalkError(index)
              case Some(e) => r == Failure(e)
              case None => Computed() && r == Success(Steps(tip.value, index))
      ensures Progress() == if Abstract().InRange(index) then MerkleModel.Progress(0, true) else old(Progress())
      ensures forall o :: o in Nodes() ==> o in old(Nodes()) || fresh(o)
    {
      hide Plug, Zipped, FramesObjs, IsLeafNode, Grown, Waiting, Inserted, TreeObjs, Nodes;
      NumLeavesIsCount();
      if index < MinIndex() || MaxIndex() < index {
        return Failure(InvalidLeafIndex);
      }
      var computed := ComputeRoot();
      if computed.Failure? {
        return Failure(computed.error);
      }
      assert allocated(TreeObjs());
      var leaf, trace := WalkDown(index);
      r := Success(trace);
    }

    /** leaf_node */
    method LeafNode(index: nat) returns (n: Node)
      requires Valid() && numFlushed <= index < |Leaves()|
      ensures n.hash == Leaves()[index]
    {
      NumLeavesIsCount();
      if index - numFlushed >= |leafNodes| {
        n := uninserted[index - numFlushed - |leafNodes|];
      } else {
        n := leafNodes[index - numFlushed];
        InsertedLeaf(index);
      }
    }

    lemma InsertedLeaf(index: nat)
      requires Valid() && numFlushed <= index < |Inserted()|
      ensures |Inserted()| == numFlushed + |leafNodes|
      ensures leafNodes[index - numFlushed].hash == Inserted()[index]
    {
      NumLeavesIsCount();
      Counts(Whole());
      ZippedLeaf(H, frames, tip.value, insertionStack, index);
    }

    /** leaf: the source requires the index not to lie among the flushed leaves. */
    method Leaf(index: nat) returns (r: Result<Hash>)
      requires Valid() && numFlushed <= index
      ensures r == if index < |Leaves()| then Success(Leaves()[index]) else Failure(LeafIndexOutOfBounds)
    {
      NumLeavesIsCount();
      if index >= NumLeaves() {
        return Failure(LeafIndexOutOfBounds);
      }
      var n := LeafNode(index);
      r := Success(n.hash);
    }

    /** root */
    method Root() returns (r: Result<Hash>)
      requires Valid()
      modifies this`leafNodes, this`root, this`insertionStack, this`frames, this`tip, this`uninserted, this`pending
      modifies this`numHash, Nodes()
      ensures Valid() && Abstract() == old(Abstract()) && r == Abstract().Root(H)
      ensures Progress() == MerkleModel.Progress(0, true)
      ensures forall o :: o in Nodes() ==> o in old(Nodes()) || fresh(o)
    {
      var computed := ComputeRoot();
      if computed.Failure? {
        return Failure(computed.error);
      }
      ComputedTree();
      r := Success(root.hash);
    }

    /** What the callback of path finds along the way to a leaf. */
    lemma ReadPath(index: nat)
      requires Valid() && Computed() && Abstract().WalkError(index) == None
      ensures var trace, es := Steps(tip.value, index), ElementsFrom(H, tip.value, index);
        && |es| == |trace| && Reverse(es) == AuditPath(H, index, Leaves())
        && (forall k :: 0 <= k < |trace| ==> Shows(trace[k], es[k]))
    {
      SettledTree();
      var t := tip.value;
      ElementsReversed(H, t, index);
      ElementsAreAuditPath(H, t, index);
      forall k | 0 <= k < |Steps(t, index)|
        ensures Shows(Steps(t, index)[k], ElementsFrom(H, t, index)[k])
      {
        StepShows(H, t, index, k);
      }
    }

    /** The callback of path, run over the trace: each element goes to the front. */
    method ReadElements(trace: seq<Step>, ghost index: nat) returns (elements: seq<Element>)
      requires Valid() && Computed() && Abstract().WalkError(index) == None
      requires trace == Steps(tip.value, index)
      ensures elements == AuditPath(H, index, Leaves())
    {
      hide Valid, AuditPath, Steps, ElementsFrom, Shape.Canonical;
      SettledTree();
      ReadPath(index);
      elements := [];
      ghost var es := ElementsFrom(H, tip.value, index);
      assert es[..0] == [];
      for k := 0 to |trace|
        invariant elements == Reverse(es[..k])
      {
        var n := trace[k].n;
        assert Shows(trace[k], es[k]);
        var e := if trace[k].goRight then Element(n.left.hash, PathLeft) else Element(n.right.hash, PathRight);
        elements := [e] + elements;
        ReverseSnoc(es[..k], es[k]);
        assert es[..k + 1] == es[..k] + [es[k]];
      }
      assert es[..|trace|] == es;
    }

    /** path */
    method Path(index: nat) returns (r: Result<PathT>)
      requires Valid()
      modifies this`leafNodes, this`root, this`insertionStack, this`frames, this`tip, this`uninserted, this`pending
      modifies this`numHash, Nodes()
      ensures Valid() && Abstract() == old(Abstract()) && r == Abstract().Path(H, index)
      ensures Progress() == if Abstract().InRange(index) then MerkleModel.Progress(0, true) else old(Progress())
      ensures forall o :: o in Nodes() ==> o in old(Nodes()) || fresh(o)
    {
      hide Plug, Zipped, FramesObjs, IsLeafNode, Grown, Waiting, Inserted, TreeObjs, Nodes, AuditPath, Steps;
      var walked := WalkTo(index);
      if walked.Failure? {
        return Failure(walked.error);
      }
      NumLeavesIsCount();
      assert allocated(TreeObjs());
      var elements := ReadElements(walked.value, index);
      var leaf := LeafNode(index);
      r := Success(PathT(leaf.hash, index, elements, MaxIndex()));
    }

    /** The loop of past_root: hashes in only what joins from the left. */
    method FoldLeftElements(leaf: Hash, es: seq<Element>) returns (result: Hash)
      ensures result == FoldLefts(H, leaf, Lefts(es))
    {
      result := leaf;
      for k := 0 to |es|
        invariant result == FoldLefts(H, leaf, Lefts(es[..k]))
      {
        assert es[..k + 1] == es[..k] + [es[k]];
        LeftsSnoc(es[..k], es[k]);
        if es[k].direction == PathLeft {
          FoldLeftsSnoc(H, leaf, Lefts(es[..k]), es[k].hash);
          result := H(es[k].hash, result);
        } else {
          assert Lefts(es[..k + 1]) == Lefts(es[..k]);
        }
      }
      assert es[..|es|] == es;
    }

    /** past_root */
    method PastRoot(index: nat) returns (r: Result<Hash>)
      requires Valid()
      modifies this`leafNodes, this`root, this`insertionStack, this`frames, this`tip, this`uninserted, this`pending
      modifies this`numHash, Nodes()
      ensures Valid() && Abstract() == old(Abstract()) && r == Abstract().PastRoot(H, index)
      ensures Progress() == if Abstract().InRange(index) then MerkleModel.Progress(0, true) else old(Progress())
      ensures forall o :: o in Nodes() ==> o in old(Nodes()) || fresh(o)
    {
      hide Plug, Zipped, FramesObjs, IsLeafNode, Grown, Waiting, Inserted, TreeObjs, Nodes, AuditPath, TreeHash;
      var p := Path(index);
      if p.Failure? {
        return Failure(p.error);
      }
      assert allocated(TreeObjs());
      var result := FoldLeftElements(p.value.leaf, p.value.elements);
      AuditPathPastRoot(H, index, Leaves());
      r := Success(result);
    }

    /** Everything past_path relies on before it walks. */
    lemma ReadyForPast(index: nat, asOf: nat)
      requires Valid() && Computed() && Abstract().WalkError(index) == None && Abstract().WalkError(asOf) == None
      requires index <= asOf
      ensures 1 <= root.height <= MAX_HEIGHT
      ensures var h := root.height;
        Walkers(H, AuditPath(H, index, Leaves()[..asOf + 1]), false, h,
                tip.value, index, if h > 1 then ShiftLeft64(index, 65 - h) else 0, root,
                tip.value, asOf, if h > 1 then ShiftLeft64(asOf, 65 - h) else 0, root, [], [], [])
    {
      SettledTree();
      ReadyToWalk(index);
      ReadyToWalk(asOf);
    }

    /** A round of past_path above the fork: both walkers stand at the same node and go the same way. */
    method RoundAboveFork(cur: Node, height: nat, itI: nat, itA: nat, rootToFork: seq<Element>,
                          ghost path: seq<Element>, ghost t: Shape, ghost i: nat, ghost a: nat)
      returns (cur': Node, rootToFork': seq<Element>, ghost t': Shape, ghost i': nat, ghost a': nat)
      requires height >= 2 && TopBit(itI) == TopBit(itA)
      requires Walkers(H, path, false, height, t, i, itI, cur, t, a, itA, cur, rootToFork, [], [])
      ensures Walkers(H, path, false, height - 1, t', i', ShiftLeft64(itI, 1), cur', t', a', ShiftLeft64(itA, 1), cur',
                      rootToFork', [], [])
    {
      hide WalkAt, ShiftLeft64, TopBit, BeforeFork, Next, NextRel;
      RoundTogether(H, path, t, i, a, itI, itA, height, cur, rootToFork);
      cur', rootToFork', t', i', a' := cur, rootToFork, t, i, a;
      if cur.height == height {
        var goRight := TopBit(itI);
        if goRight {
          rootToFork' := rootToFork + [Element(cur.left.hash, PathLeft)];
        }
        cur' := if goRight then cur.right else cur.left;
        t', i', a' := Next(t, goRight), NextRel(t, i, goRight), NextRel(t, a, goRight);
      }
    }

    /** The round of past_path at the fork: the ways part, and each walker records its first element. */
    method RoundAtFork(cur: Node, height: nat, itI: nat, itA: nat, rootToFork: seq<Element>,
                       ghost path: seq<Element>, ghost t: Shape, ghost i: nat, ghost a: nat)
      returns (curI: Node, curA: Node, eI: Element, eA: Element)
      requires height >= 2 && TopBit(itI) != TopBit(itA)
      requires Walkers(H, path, false, height, t, i, itI, cur, t, a, itA, cur, rootToFork, [], [])
      ensures Walkers(H, path, true, height - 1, Next(t, false), NextRel(t, i, false), ShiftLeft64(itI, 1), curI,
                      Next(t, true), NextRel(t, a, true), ShiftLeft64(itA, 1), curA, rootToFork, [eI], [eA])
    {
      hide WalkAt, ShiftLeft64, TopBit, BeforeFork, AfterFork, Next, NextRel;
      RoundFork(H, path, t, i, a, itI, itA, height, cur, rootToFork);
      curI, curA := cur.left, cur.right;
      eI, eA := Element(cur.right.hash, PathRight), Element(cur.left.hash, PathLeft);
    }

    /**
     A round of past_path below the fork. The walker to the index records every node it passes, the walker to the
     past last leaf only those it leaves to the right, because what lies right of it is younger.
     */
    method RoundBelowFork(curI: Node, curA: Node, height: nat, itI: nat, itA: nat, rootToFork: seq<Element>,
                          forkToIndex: seq<Element>, forkToAsOf: seq<Element>,
                          ghost path: seq<Element>, ghost tI: Shape, ghost i: nat, ghost tA: Shape, ghost a: nat)
      returns (curI': Node, curA': Node, forkToIndex': seq<Element>, forkToAsOf': seq<Element>,
               ghost tI': Shape, ghost i': nat, ghost tA': Shape, ghost a': nat)
      requires height >= 2
      requires Walkers(H, path, true, height, tI, i, itI, curI, tA, a, itA, curA, rootToFork, forkToIndex, forkToAsOf)
      ensures Walkers(H, path, true, height - 1, tI', i', ShiftLeft64(itI, 1), curI',
                      tA', a', ShiftLeft64(itA, 1), curA',
                      rootToFork, forkToIndex', forkToAsOf')
    {
      hide WalkAt, ShiftLeft64, TopBit, AfterFork, Next, NextRel;
      RoundIndex(H, path, tI, i, itI, height, curI, tA, a, rootToFork, forkToIndex, forkToAsOf);
      curI', forkToIndex', tI', i' := curI, forkToIndex, tI, i;
      if curI.height == height {
        var goRight := TopBit(itI);
        var e := if goRight then Element(curI.left.hash, PathLeft) else Element(curI.right.hash, PathRight);
        forkToIndex' := forkToIndex + [e];
        curI' := if goRight then curI.right else curI.left;
        tI', i' := Next(tI, goRight), NextRel(tI, i, goRight);
      }
      RoundAsOf(H, path, tI', i', tA, a, itA, height, curA, rootToFork, forkToIndex', forkToAsOf);
      curA', forkToAsOf', tA', a' := curA, forkToAsOf, tA, a;
      if curA.height == height {
        var goRight := TopBit(itA);
        if goRight {
          forkToAsOf' := forkToAsOf + [Element(curA.left.hash, PathLeft)];
        }
        curA' := if goRight then curA.right else curA.left;
        tA', a' := Next(tA, goRight), NextRel(tA, a, goRight);
      }
    }

    /**
     The walk of past_path: one walker for each of the two leaves, together down to the fork and separately below it.
     Each records what it passes.
     */
    method PastWalk(index: nat, asOf: nat)
      returns (forkNode: Node?, rootToFork: seq<Element>, forkToIndex: seq<Element>, forkToAsOf: seq<Element>,
               asOfLeaf: Hash)
      requires Valid() && Computed() && Abstract().WalkError(index) == None && Abstract().WalkError(asOf) == None
      requires index <= asOf
      ensures Recorded(H, AuditPath(H, index, Leaves()[..asOf + 1]), forkNode != null, asOfLeaf,
                       rootToFork, forkToIndex, forkToAsOf)
    {
      ghost var target := AuditPath(H, index, Leaves()[..asOf + 1]);
      hide Valid, Walkers, Recorded, ShiftLeft64, TopBit, AuditPath, Abstract, Leaves, Next, NextRel;
      ReadyForPast(index, asOf);
      var curI: Node, curA: Node := root, root;
      var height: nat := root.height;
      var itI: nat := if height > 1 then ShiftLeft64(index, 65 - height) else 0;
      var itA: nat := if height > 1 then ShiftLeft64(asOf, 65 - height) else 0;
      rootToFork, forkToIndex, forkToAsOf, forkNode := [], [], [], null;
      ghost var tI: Shape, relI: nat := tip.value, index;
      ghost var tA: Shape, relA: nat := tip.value, asOf;
      while height > 1
        invariant height >= 1
        invariant forkNode == null ==> curI == curA && tI == tA && forkToIndex == [] && forkToAsOf == []
        invariant Walkers(H, target, forkNode != null, height, tI, relI, itI, curI, tA, relA, itA, curA,
                          rootToFork, forkToIndex, forkToAsOf)
        decreases height
      {
        if forkNode == null && TopBit(itI) == TopBit(itA) {
          curI, rootToFork, tI, relI, relA :=
            RoundAboveFork(curI, height, itI, itA, rootToFork, target, tI, relI, relA);
          curA, tA := curI, tI;
        } else if forkNode == null {
          forkNode := curI;
          var eI, eA;
          curI, curA, eI, eA := RoundAtFork(curI, height, itI, itA, rootToFork, target, tI, relI, relA);
          forkToIndex, forkToAsOf := [eI], [eA];
          relI, relA := NextRel(tI, relI, false), NextRel(tA, relA, true);
          tI, tA := Next(tI, false), Next(tA, true);
        } else {
          curI, curA, forkToIndex, forkToAsOf, tI, relI, tA, relA :=
            RoundBelowFork(curI, curA, height, itI, itA, rootToFork, forkToIndex, forkToAsOf,
                           target, tI, relI, tA, relA);
        }
        itI, itA := ShiftLeft64(itI, 1), ShiftLeft64(itA, 1);
        height := height - 1;
      }
      asOfLeaf := curA.hash;
      WalkersArrived(H, target, forkNode != null, tI, relI, itI, curI, tA, relA, itA, curA,
                     rootToFork, forkToIndex, forkToAsOf);
    }

    /** A loop of past_path: appends recorded elements, the last one first. */
    method AppendReversed(path: seq<Element>, es: seq<Element>) returns (out: seq<Element>)
      ensures out == path + Reverse(es)
    {
      out := path;
      var k := |es|;
      while k > 0
        invariant 0 <= k <= |es| && out == path + Reverse(es[k..])
      {
        k := k - 1;
        out := out + [es[k]];
        assert es[k..][1..] == es[k + 1..];
      }
      assert es[0..] == es;
    }

    /** A loop of past_path: the hash at the fork as of the past leaf, from the leaf upwards. */
    method FoldReversed(es: seq<Element>, leaf: Hash) returns (h: Hash)
      ensures h == FoldDown(H, es, leaf)
    {
      h := leaf;
      var k := |es|;
      assert es[..k] == es;
      while k > 0
        invariant k <= |es| && FoldDown(H, es[..k], h) == FoldDown(H, es, leaf)
      {
        k := k - 1;
        assert es[..k + 1] == es[..k] + [es[k]];
        FoldDownSnoc(H, es[..k], es[k], h);
        h := H(es[k].hash, h);
      }
    }

    /** The path of past_path, put together from what the walkers recorded. */
    method PastElementsTo(index: nat, asOf: nat) returns (path: seq<Element>)
      requires Valid() && Computed() && Abstract().WalkError(index) == None && Abstract().WalkError(asOf) == None
      requires index <= asOf
      ensures path == AuditPath(H, index, Leaves()[..asOf + 1])
    {
      hide Valid, AuditPath, Reverse, FoldDown;
      var forkNode, rootToFork, forkToIndex, forkToAsOf, asOfLeaf := PastWalk(index, asOf);
      path := [];
      if forkNode != null {
        path := AppendReversed(path, forkToIndex[1..]);
        var asOfHash := FoldReversed(forkToAsOf[1..], asOfLeaf);
        path := path + [Element(asOfHash, PathRight)];
      }
      path := AppendReversed(path, rootToFork);
    }

    /** past_path */
    method PastPath(index: nat, asOf: nat) returns (r: Result<PathT>)
      requires Valid()
      modifies this`leafNodes, this`root, this`insertionStack, this`frames, this`tip, this`uninserted, this`pending
      modifies this`numHash, Nodes()
      ensures Valid() && Abstract() == old(Abstract()) && r == Abstract().PastPath(H, index, asOf)
      ensures var m := Abstract();
        Progress() == if m.InRange(index) && m.InRange(asOf) && index <= asOf then MerkleModel.Progress(0, true)
                      else old(Progress())
      ensures forall o :: o in Nodes() ==> o in old(Nodes()) || fresh(o)
    {
      hide Plug, Zipped, FramesObjs, IsLeafNode, Grown, Waiting, Inserted, TreeObjs, Nodes, AuditPath, Steps;
      NumLeavesIsCount();
      if (index < MinIndex() || MaxIndex() < index) || (asOf < MinIndex() || MaxIndex() < asOf) || index > asOf {
        return Failure(InvalidLeafIndices);
      }
      var computed := ComputeRoot();
      if computed.Failure? {
        return Failure(computed.error);
      }
      assert allocated(TreeObjs());
      var elements := PastElementsTo(index, asOf);
      var leaf := LeafNode(index);
      r := Success(PathT(leaf.hash, index, elements, asOf));
    }

    /** The callback of flush_to at a right turn: the left child loses its children. It is clean already. */
    method CutLeft(c: Node, ghost t: Shape, ghost cuts: set<Node>, ghost l: Shape)
      requires t.Distinct() && CutTree(H, t, cuts) && l in Subs(t) && c == l.o && c !in cuts
      requires NodeOk(H, l) && !c.dirty && c.hash == l.Root(H)
      modifies c`left, c`right
      ensures CutTree(H, t, cuts + {c})
    {
      hide Shape.Canonical, Shape.Size, Shape.Height, Shape.Distinct, Shape.Root, Shape.Objs, Subs;
      c.left := null;
      c.right := null;
      forall s | s in Subs(t)
        ensures s.o in s.Objs() && if s.o in cuts + {c} then Severed(H, s) else s.Objs() <= t.Objs() && NodeOk(H, s)
      {
        if s.o == c {
          SubsUnique(t, s, l);
        }
      }
    }

    /** A round of the flushing walk. */
    method FlushRound(cur: Node, height: nat, it: nat, ghost t: Shape, ghost index: nat, ghost cuts: set<Node>,
                      ghost s: Shape, ghost rel: nat)
      returns (cur': Node, ghost cuts': set<Node>, ghost s': Shape, ghost rel': nat)
      requires height >= 2 && t.Distinct() && FlushWalk(H, t, index, cuts, s, rel, it, height, cur)
      modifies t.Objs()
      ensures FlushWalk(H, t, index, cuts', s', rel', ShiftLeft64(it, 1), height - 1, cur')
    {
      hide FlushWalk, WalkAt, CutTree, CutObjs, ShiftLeft64, TopBit, Subs, NodeOk, Shape.Distinct, Shape.Canonical;
      hide Shape.Objs, Shape.Root;
      FlushAhead(H, t, index, cuts, s, rel, it, height, cur);
      cur', cuts', s', rel' := cur, cuts, s, rel;
      if cur.height == height {
        var goRight := TopBit(it);
        if goRight && cur.left != null {
          assert allocated(s.r.Objs());
          CutLeft(cur.left, t, cuts, s.l);
          CutDone(H, t, index, cuts, s, rel, ShiftLeft64(it, 1), height - 1);
          cuts' := cuts + {s.l.o};
        }
        cur' := if goRight then cur.right else cur.left;
        s', rel' := Next(s, goRight), NextRel(s, rel, goRight);
      }
    }

    /** The walk of flush_to. */
    method FlushDown(start: Node, startHeight: nat, index: nat, ghost t: Shape)
      requires 1 <= startHeight <= MAX_HEIGHT && InTree(t, index) && t.Distinct()
      requires FlushWalk(H, t, index, {}, t, index, if startHeight > 1 then ShiftLeft64(index, 65 - startHeight) else 0,
                         startHeight, start)
      modifies t.Objs()
      ensures t.Flush(index).Canonical() && t.Flush(index).Linked(H)
    {
      hide FlushWalk, ShiftLeft64, InTree, Shape.Objs, Shape.Distinct, Shape.Flush, Shape.Canonical, Shape.Linked;
      var cur := start;
      var height := startHeight;
      var it: nat := if height > 1 then ShiftLeft64(index, 65 - height) else 0;
      ghost var cuts: set<Node>, s: Shape, rel: nat := {}, t, index;
      while height > 1
        invariant height >= 1 && FlushWalk(H, t, index, cuts, s, rel, it, height, cur)
        decreases height
      {
        cur, cuts, s, rel := FlushRound(cur, height, it, t, index, cuts, s, rel);
        it := ShiftLeft64(it, 1);
        height := height - 1;
      }
      FlushArrived(H, t, index, cuts, s, rel, it, cur);
    }

    /** The shape flush_to leaves behind. */
    lemma FlushedShape(index: nat)
      requires Valid() && Computed() && Abstract().WalkError(index) == None
      ensures InTree(tip.value, index)
      ensures var t := tip.value.Flush(index);
        && t.Canonical() && t.Distinct() && !t.Pruned? && t.o == root && t.Count() <= MAX_LEAVES
        && t.Content() == Leaves() && t.Objs() <= Nodes() && index == t.Flushed()
        && 0 <= index - numFlushed <= |leafNodes| && t.LeafObjs() == leafNodes[index - numFlushed..]
    {
      hide Shape.Objs, Shape.Distinct, Shape.Flush, Shape.Canonical, Shape.Linked, Shape.Content, Shape.LeafObjs;
      SettledTree();
      FlushFacts(tip.value, index);
    }

    lemma ReadyToFlush(index: nat)
      requires Valid() && Computed() && Abstract().WalkError(index) == None
      ensures frames == [] && insertionStack == [] && uninserted == [] && pending == []
      ensures 1 <= root.height <= MAX_HEIGHT && tip.value.Distinct()
      ensures tip.value.Objs() == TreeObjs() == Nodes() && root == tip.value.o
      ensures FlushWalk(H, tip.value, index, {}, tip.value, index,
                        if root.height > 1 then ShiftLeft64(index, 65 - root.height) else 0, root.height, root)
    {
      hide Valid, Abstract, WalkAt, ShiftLeft64, CutTree, Subs;
      hide Shape.Objs, Shape.Distinct, Shape.Canonical, Shape.Linked;
      SettledTree();
      ReadyToWalk(index);
      WholeUncut(H, tip.value);
    }

    /** flush_to */
    method FlushTo(index: nat) returns (r: Result<()>)
      requires Valid()
      modifies this`leafNodes, this`root, this`insertionStack, this`frames, this`tip, this`uninserted, this`pending
      modifies this`numHash, this`numFlushed, Nodes()
      ensures Valid()
      ensures match old(Abstract()).FlushTo(index)
              case Failure(e) => r == Failure(e) && Abstract() == old(Abstract())
              case Success(m) => r == Success(()) && Abstract() == m
      ensures Leaves() == old(Leaves())
      ensures r.Success? <==> index <= old(numFlushed) || index < |Leaves()|
      ensures numFlushed == if r.Success? && old(numFlushed) < index then index else old(numFlushed)
      ensures r.Failure? ==> r.error == InvalidLeafIndex
      ensures Progress() == if old(numFlushed < index && Abstract().InRange(index)) then MerkleModel.Progress(0, true)
                            else old(Progress())
      ensures forall o :: o in Nodes() ==> o in old(Nodes()) || fresh(o)
    {
      if index <= MinIndex() {
        return Success(());
      }
      NumLeavesIsCount();
      if index < MinIndex() || MaxIndex() < index {
        return Failure(InvalidLeafIndex);
      }
      var computed := ComputeRoot();
      if computed.Failure? {
        return Failure(computed.error);
      }
      FlushComputed(index);
      r := Success(());
    }

    /** The last lines of flush_to: forgets the leaf nodes before the index. */
    method DropFlushed(index: nat, ghost t: Shape)
      requires frames == [] && insertionStack == [] && uninserted == [] && pending == []
      requires root == t.o && t.Canonical() && t.Distinct() && !t.Pruned? && t.Linked(H) && t.Count() <= MAX_LEAVES
      requires numFlushed <= index == t.Flushed() && index - numFlushed <= |leafNodes|
      requires t.LeafObjs() == leafNodes[index - numFlushed..]
      modifies this`leafNodes, this`numFlushed, this`tip
      ensures Valid() && Leaves() == t.Content() && numFlushed == index && Nodes() == t.Objs() && tip == Some(t)
      ensures uninserted == [] && Settled()
    {
      hide Valid, Leaves, Nodes;
      hide Shape.Objs, Shape.Distinct, Shape.Canonical, Shape.Linked, Shape.LeafObjs, Shape.Flushed;
      assert forall n: Node :: n in t.Objs() ==> n as object != this;
      var numNewlyFlushed := index - numFlushed;
      leafNodes := leafNodes[numNewlyFlushed..];
      numFlushed := numFlushed + numNewlyFlushed;
      tip := Some(t);
      WholeTree(t);
    }

    /** The part of flush_to after the root has been computed. */
    method FlushComputed(index: nat)
      requires Valid() && Computed() && Abstract().WalkError(index) == None
      modifies this`leafNodes, this`numFlushed, this`tip, TreeObjs()
      ensures Valid() && Leaves() == old(Leaves()) && numFlushed == index
      ensures forall o :: o in Nodes() ==> o in old(Nodes())
    {
      hide Valid, Abstract, FlushWalk, ShiftLeft64, InTree, TreeObjs, Leaves, Nodes;
      hide Shape.Objs, Shape.Distinct, Shape.Flush, Shape.Canonical, Shape.Linked, Shape.Content, Shape.LeafObjs;
      hide Shape.Count, Shape.Flushed;
      ghost var t, t' := tip.value, tip.value.Flush(index);
      ReadyToFlush(index);
      FlushedShape(index);
      FlushDown(root, root.height, index, t);
      DropFlushed(index, t');
    }

    /** A single linked tree with nothing waiting is a valid state. */
    lemma WholeTree(t: Shape)
      requires tip == Some(t) && frames == [] && insertionStack == [] && uninserted == [] && pending == []
      requires root == t.o && t.Canonical() && t.Distinct() && !t.Pruned? && t.Linked(H) && t.Count() <= MAX_LEAVES
      requires leafNodes == t.LeafObjs() && numFlushed == t.Flushed()
      ensures Valid() && Settled() && Leaves() == t.Content() && TreeObjs() == t.Objs() && Nodes() == t.Objs()
    {
      NoFrames(H, t);
    }

    /** The callback of retract_to at a left turn: drops the right child and overwrites the node with its left one. */
    method Eliminate(n: Node, ghost s: Shape)
      requires s.Fork? && n == s.o && s.Canonical() && s.Distinct() && !s.l.Pruned?
      requires s.l.Linked(H) && n.left == s.l.o
      modifies n, s.l.o
      ensures Overwritten(H, n, s.l)
    {
      hide Shape.Root, Shape.Content, Shape.Perfect, Shape.Flushed, Shape.Height, Shape.Size, TreeHash;
      var oldLeft := n.left;
      n.right := null;
      n.hash, n.size, n.height, n.dirty := oldLeft.hash, oldLeft.size, oldLeft.height, oldLeft.dirty;
      n.left, n.right := oldLeft.left, oldLeft.right;
      oldLeft.left, oldLeft.right := null, null;
      if n.left != null && n.right != null {
        n.dirty := true;
      }
    }

    /**
     A round of the walk of retract_to. At a left turn the walk stays at the node and at the height, since the node
     is now a lower one.
     */
    method RetractRound(cur: Node, height: nat, it: nat, ghost target: Shape, ghost fs: seq<Frame>, ghost s: Shape,
                        ghost rel: nat, ghost walkStack: seq<Node>)
      returns (cur': Node, height': nat, it': nat, ghost fs': seq<Frame>, ghost s': Shape, ghost rel': nat)
      requires height >= 2 && RetractAt(H, target, fs, s, rel, it, height, cur, walkStack)
      modifies s.Objs()
      ensures RetractAt(H, target, fs', s', rel', it', height', cur', walkStack + [cur])
      ensures 1 <= height' <= height && (height' < height || s'.Height() < s.Height())
      ensures FramesObjs(fs') + s'.Objs() <= FramesObjs(fs) + s.Objs()
    {
      hide RetractAt, Cursor, Heading, ShiftLeft64, TopBit, Plug, Visits, FramesLinked, RightLinks, FramesObjs;
      hide Shape.Objs, Shape.Distinct, Shape.Canonical, Shape.Linked, Shape.Height, Shape.Retract, Overwritten;
      cur', height', it', fs', s', rel' := cur, height, it, fs, s, rel;
      if cur.height == height {
        RetractMeet(H, target, fs, s, rel, it, height, cur, walkStack);
        var goRight := TopBit(it);
        cur.dirty := true;
        if !goRight && cur.right != null {
          assert allocated(s.l.Objs()) && allocated(FramesObjs(fs));
          Eliminate(cur, s);
          RetractLeft(H, target, fs, s, rel, it, height, walkStack);
          s' := Reroot(s.l, s.o);
          return;
        } else {
          RetractRight(H, target, fs, s, rel, ShiftLeft64(it, 1), height, walkStack);
          cur' := cur.right;
          fs', s', rel' := fs + [Frame(s.o, s.l)], s.r, rel - s.l.Count();
        }
      } else {
        RetractSkip(H, target, fs, s, rel, it, height, cur, walkStack);
      }
      it' := ShiftLeft64(it, 1);
      height' := height - 1;
    }

    /** A round on the way back: repairs the size and height of the node visited last. */
    method RepairRound(n: Node, ghost target: Shape, ghost fs: seq<Frame>, ghost t: Shape, ghost walkStack: seq<Node>)
      returns (ghost fs': seq<Frame>, ghost t': Shape)
      requires walkStack != [] && n == walkStack[|walkStack| - 1]
      requires Repairing(H, target, fs, t, walkStack)
      modifies FramesObjs(fs), t.o
      ensures Repairing(H, target, fs', t', walkStack[..|walkStack| - 1])
      ensures FramesObjs(fs') + {t'.o} <= FramesObjs(fs) + {t.o}
    {
      hide Repairing, Visits, Plug, FramesObjs, FramesLinked, RightLinks;
      hide Shape.Objs, Shape.Distinct, Shape.Canonical, Shape.Linked, Shape.Size, Shape.Height;
      RepairNext(H, target, fs, t, walkStack);
      ghost var rest := walkStack[..|walkStack| - 1];
      fs', t' := fs, t;
      ghost var again := n == t.o && Visits(rest, fs, t.o);
      if again {
        RepairAgain(H, target, fs, t, walkStack);
      } else {
        RepairFrame(H, target, fs, t, walkStack);
        assert allocated(fs[|fs| - 1].l.Objs()) && allocated(FramesObjs(fs[..|fs| - 1]));
      }
      assert allocated(t.Objs()) && allocated(FramesObjs(fs));
      n.UpdateSizes();
      if again {
        assert n.size == old(n.size) && n.height == old(n.height);
        RepairedAgain(H, target, fs, t, rest);
      } else {
        ghost var f, up := fs[|fs| - 1], fs[..|fs| - 1];
        FrameRepaired(H, target, up, f, t, rest);
        fs', t' := up, Fork(f.o, f.l, t);
      }
    }

    /** walk_to with updates, as retract_to uses it: down to the new last leaf, then back along the visited nodes. */
    method RetractDown(start: Node, startHeight: nat, index: nat, ghost t: Shape) returns (leaf: Node)
      requires 1 <= startHeight <= MAX_HEIGHT
      requires t.Retract(t.o, index).Canonical() && t.Retract(t.o, index).Distinct()
      requires RetractAt(H, t.Retract(t.o, index), [], t, index,
                         if startHeight > 1 then ShiftLeft64(index, 65 - startHeight) else 0, startHeight, start, [])
      modifies t.Objs()
      ensures t.Retract(t.o, index).Linked(H) && leaf == t.Retract(t.o, index).LastLeaf()
    {
      ghost var target := t.Retract(t.o, index);
      hide RetractAt, Repairing, ShiftLeft64, FramesObjs, Plug, Visits;
      hide Shape.Objs, Shape.Distinct, Shape.Canonical, Shape.Linked, Shape.Height, Shape.Retract, Shape.LastLeaf;
      var cur := start;
      var height := startHeight;
      var it: nat := if height > 1 then ShiftLeft64(index, 65 - height) else 0;
      var walkStack: seq<Node> := [];
      ghost var fs: seq<Frame>, s: Shape, rel: nat := [], t, index;
      NoFrames(H, t);
      while height > 1
        invariant height >= 1 && RetractAt(H, target, fs, s, rel, it, height, cur, walkStack)
        invariant FramesObjs(fs) + s.Objs() <= t.Objs()
        decreases height, s.Height()
      {
        ghost var visited := walkStack;
        walkStack := walkStack + [cur];
        cur, height, it, fs, s, rel := RetractRound(cur, height, it, target, fs, s, rel, visited);
      }
      RetractArrived(H, target, fs, s, rel, it, cur, walkStack);
      leaf := cur;
      TopInObjs(s);
      Repair(walkStack, target, fs, s);
    }

    /** The loop of walk_to over its walk stack. */
    method Repair(visited: seq<Node>, ghost target: Shape, ghost fs0: seq<Frame>, ghost t0: Shape)
      requires Repairing(H, target, fs0, t0, visited)
      modifies FramesObjs(fs0), t0.o
      ensures target.Linked(H)
    {
      hide Repairing, FramesObjs, Shape.Linked, Shape.Canonical;
      var walkStack := visited;
      ghost var fs, t := fs0, t0;
      while walkStack != []
        invariant Repairing(H, target, fs, t, walkStack)
        invariant FramesObjs(fs) + {t.o} <= FramesObjs(fs0) + {t0.o}
        decreases |walkStack|
      {
        var n := walkStack[|walkStack| - 1];
        fs, t := RepairRound(n, target, fs, t, walkStack);
        walkStack := walkStack[..|walkStack| - 1];
      }
      RepairDone(H, target, fs, t);
    }

    lemma ReadyToRetract(index: nat)
      requires Valid() && Computed() && Abstract().WalkError(index) == None
      ensures frames == [] && insertionStack == [] && uninserted == [] && pending == []
      ensures 1 <= root.height <= MAX_HEIGHT && tip.value.Objs() == TreeObjs() == Nodes() && root == tip.value.o
      ensures RetractAt(H, tip.value.Retract(root, index), [], tip.value, index,
                        if root.height > 1 then ShiftLeft64(index, 65 - root.height) else 0, root.height, root, [])
    {
      hide Valid, Abstract, ShiftLeft64, Heading, Cursor;
      SettledTree();
      ReadyToWalk(index);
      StartRetract(H, tip.value, index, if root.height > 1 then ShiftLeft64(index, 65 - root.height) else 0,
                   root.height, root);
    }

    /** The shape retract_to leaves behind. */
    lemma RetractedShape(index: nat)
      requires Valid() && Computed() && Abstract().WalkError(index) == None
      ensures var t := tip.value.Retract(root, index);
        && t.Canonical() && t.Distinct() && !t.Pruned? && t.o == root && t.Count() <= MAX_LEAVES
        && t.Content() == Leaves()[..index + 1] && t.Objs() <= Nodes() && t.Flushed() == numFlushed
        && 0 <= index - numFlushed < |leafNodes| == |Leaves()| - numFlushed
        && t.LeafObjs() == leafNodes[..index - numFlushed] + [t.LastLeaf()]
    {
      hide Shape.Objs, Shape.Distinct, Shape.Retract, Shape.Canonical, Shape.Linked, Shape.Content, Shape.LeafObjs;
      SettledTree();
      Counts(tip.value);
      RetractFacts(tip.value, root, index);
    }

    /** The last lines of retract_to: the leaf may have moved to another node, and the leaf nodes after it go. */
    method DropRetracted(index: nat, newLeafNode: Node, ghost t: Shape)
      requires frames == [] && insertionStack == [] && uninserted == [] && pending == []
      requires root == t.o && t.Canonical() && t.Distinct() && !t.Pruned? && t.Linked(H) && t.Count() <= MAX_LEAVES
      requires numFlushed == t.Flushed() <= index && index - numFlushed < |leafNodes|
      requires t.LeafObjs() == leafNodes[..index - numFlushed] + [newLeafNode]
      modifies this`leafNodes, this`tip
      ensures Valid() && Leaves() == t.Content() && Nodes() == t.Objs() && tip == Some(t)
      ensures uninserted == [] && Settled()
    {
      hide Valid, Leaves, Nodes;
      hide Shape.Objs, Shape.Distinct, Shape.Canonical, Shape.Linked, Shape.LeafObjs, Shape.Flushed;
      assert forall n: Node :: n in t.Objs() ==> n as object != this;
      var numRetracted := NumLeaves() - index - 1;
      leafNodes := leafNodes[index - numFlushed := newLeafNode];
      // a leaf before the index remains, so fewer nodes are retracted than there are
      leafNodes := leafNodes[..|leafNodes| - numRetracted];
      tip := Some(t);
      WholeTree(t);
    }

    /** The part of retract_to after the root has been computed. */
    method RetractComputed(index: nat)
      requires Valid() && Computed() && Abstract().WalkError(index) == None
      modifies this`leafNodes, this`tip, TreeObjs()
      ensures Valid() && Leaves() == old(Leaves()[..index + 1]) && numFlushed == old(numFlushed)
      ensures forall o :: o in Nodes() ==> o in old(Nodes())
    {
      hide Valid, Abstract, RetractAt, ShiftLeft64, TreeObjs, Leaves, Nodes;
      hide Shape.Objs, Shape.Distinct, Shape.Retract, Shape.Canonical, Shape.Linked, Shape.Content, Shape.LeafObjs;
      hide Shape.Count, Shape.Flushed, Shape.LastLeaf;
      ghost var t, t' := tip.value, tip.value.Retract(root, index);
      ReadyToRetract(index);
      RetractedShape(index);
      var newLeafNode := RetractDown(root, root.height, index, t);
      DropRetracted(index, newLeafNode, t');
    }

    /** The loop of retract_to when only leaves not yet inserted have to go. */
    method RetractPending(over: nat)
      requires Valid()
      modifies this`uninserted, this`pending
      ensures Valid() && Inserted() == old(Inserted()) && numFlushed == old(numFlushed)
      ensures pending == if over < |old(pending)| then old(pending)[..over] else old(pending)
      ensures forall o :: o in Nodes() ==> o in old(Nodes())
    {
      hide Grown, Inserted, TreeObjs, IsLeafNode;
      assert forall n: Node :: n in TreeObjs() ==> n as object != this;
      while |uninserted| > over
        invariant Valid() && Inserted() == old(Inserted()) && numFlushed == old(numFlushed)
        invariant TreeObjs() == old(TreeObjs())
        invariant |uninserted| <= |old(uninserted)| && uninserted == old(uninserted)[..|uninserted|]
        invariant pending == old(pending)[..|uninserted|]
        invariant |uninserted| == |old(uninserted)| || over <= |uninserted|
      {
        uninserted := uninserted[..|uninserted| - 1];
        pending := pending[..|pending| - 1];
      }
    }

    /** retract_to */
    method RetractTo(index: nat) returns (r: Result<()>)
      requires Valid()
      modifies this`leafNodes, this`root, this`insertionStack, this`frames, this`tip, this`uninserted, this`pending
      modifies this`numHash, Nodes()
      ensures Valid()
      ensures match old(Abstract()).RetractTo(index)
              case Failure(e) => r == Failure(e) && Abstract() == old(Abstract())
              case Success(m) => r == Success(()) && Abstract() == m
      ensures r == if index < old(numFlushed) then Failure(LeafIndexOutOfBounds) else Success(())
      ensures numFlushed == old(numFlushed)
      ensures Leaves() == if numFlushed <= index < |old(Leaves())| then old(Leaves())[..index + 1] else old(Leaves())
      ensures Progress() == old(Abstract().RetractProgress(Progress(), index))
      ensures forall o :: o in Nodes() ==> o in old(Nodes()) || fresh(o)
    {
      hide Valid, Grown, Waiting, Inserted, TreeObjs, Nodes, Whole, Computed, IsLeafNode, Shallow, Zipped, Plug;
      ValidParts();
      NumLeavesIsCount();
      if MaxIndex() < index {
        return Success(());
      }
      if index < MinIndex() {
        return Failure(LeafIndexOutOfBounds);
      }
      if index >= numFlushed + |leafNodes| {
        var over := index - (numFlushed + |leafNodes|) + 1;
        RetractPending(over);
        ValidParts();
        return Success(());
      }
      var computed := ComputeRoot();
      if computed.Failure? {
        // an empty tree has no leaf that is not waiting
        assert false;
      }
      NodeParts();
      RetractComputed(index);
      r := Success(());
    }

    /** The loop of serialise over the leaf nodes, and that over the waiting leaves. */
    method WriteHashes(nodes: seq<Node>, bytes: seq<byte>, ghost hs: seq<Hash>) returns (out: seq<byte>)
      requires |nodes| == |hs| && (forall i :: 0 <= i < |nodes| ==> nodes[i].hash == hs[i])
      ensures out == bytes + HashesBytes(hs)
    {
      hide HashesBytes;
      out := bytes;
      NoHashes(hs);
      for i := 0 to |nodes|
        invariant out == bytes + HashesBytes(hs[..i])
      {
        HashesBytesSnoc(hs[..i], hs[i]);
        assert hs[..i + 1] == hs[..i] + [hs[i]];
        out := out + nodes[i].hash.bytes;
      }
      assert hs[..|hs|] == hs;
    }

    /** The part of serialise that writes the leaves. */
    method WriteLeaves(bytes: seq<byte>) returns (out: seq<byte>)
      requires Valid()
      ensures numFlushed <= |Leaves()| && out == bytes + HashesBytes(Leaves()[numFlushed..])
    {
      hide Valid, Leaves, HashesBytes;
      NumLeavesIsCount();
      LeafHashes();
      assert allocated(uninserted);
      ghost var ls, k := Leaves()[numFlushed..], |leafNodes|;
      out := WriteHashes(leafNodes, bytes, ls[..k]);
      out := WriteHashes(uninserted, out, ls[k..]);
      HashesBytesConcat(ls[..k], ls[k..]);
      assert ls == ls[..k] + ls[k..];
    }

    lemma LeafHashes()
      requires Valid()
      ensures numFlushed + |leafNodes| + |uninserted| == |Leaves()|
      ensures var ls, k := Leaves()[numFlushed..], |leafNodes|;
        && (forall i :: 0 <= i < k ==> leafNodes[i].hash == ls[..k][i])
        && (forall i :: 0 <= i < |uninserted| ==> uninserted[i].hash == ls[k..][i])
    {
      hide Valid, Leaves;
      NumLeavesIsCount();
      forall i | 0 <= i < |leafNodes|
        ensures leafNodes[i].hash == Leaves()[numFlushed + i]
      {
        InsertedHash(numFlushed + i);
      }
      forall i | 0 <= i < |uninserted|
        ensures uninserted[i].hash == Leaves()[numFlushed + |leafNodes| + i]
      {
        WaitingHash(i);
      }
    }

    lemma InsertedHash(index: nat)
      requires Valid() && numFlushed <= index < numFlushed + |leafNodes|
      ensures index < |Leaves()| && leafNodes[index - numFlushed].hash == Leaves()[index]
    {
      if tip.Some? {
        Counts(Whole());
        InsertedLeaf(index);
      }
    }

    lemma WaitingHash(i: nat)
      requires Valid() && i < |uninserted|
      ensures numFlushed + |leafNodes| + i < |Leaves()|
      ensures uninserted[i].hash == Leaves()[numFlushed + |leafNodes| + i]
    {
      if tip.Some? {
        Counts(Whole());
      }
    }

    /** The callback of serialise, run over the trace: what lies to the left of the way, the highest first. */
    method CollectExtras(trace: seq<Step>, ghost index: nat) returns (extras: seq<Node>, ghost hs: seq<Hash>)
      requires Valid() && Computed() && Abstract().WalkError(index) == None
      requires trace == Steps(tip.value, index)
      ensures |extras| == |hs| && (forall i :: 0 <= i < |extras| ==> extras[i].hash == hs[i])
      ensures Reverse(hs) == Extras(H, Leaves(), index)
    {
      hide Valid, AuditPath, Steps, ElementsFrom, Shape.Canonical, Leaves, Abstract;
      SettledTree();
      ReadPath(index);
      ghost var es := ElementsFrom(H, tip.value, index);
      extras, hs := [], [];
      assert es[..0] == [];
      for k := 0 to |trace|
        invariant |extras| == |hs| && (forall i :: 0 <= i < |extras| ==> extras[i].hash == hs[i])
        invariant hs == Lefts(es[..k])
      {
        assert Shows(trace[k], es[k]);
        LeftsSnoc(es[..k], es[k]);
        assert es[..k + 1] == es[..k] + [es[k]];
        if trace[k].goRight {
          extras, hs := extras + [trace[k].n.left], hs + [es[k].hash];
        } else {
          assert Lefts(es[..k + 1]) == Lefts(es[..k]);
        }
      }
      assert es[..|trace|] == es;
      LeftsReversed(es);
    }

    /** The loop of serialise over the extras, the lowest first. */
    method WriteExtras(extras: seq<Node>, bytes: seq<byte>, ghost hs: seq<Hash>) returns (out: seq<byte>)
      requires |extras| == |hs| && (forall i :: 0 <= i < |extras| ==> extras[i].hash == hs[i])
      ensures out == bytes + HashesBytes(Reverse(hs))
    {
      out := bytes;
      var k := |extras|;
      while k > 0
        invariant 0 <= k <= |extras| && out == bytes + HashesBytes(Reverse(hs[k..]))
      {
        k := k - 1;
        assert hs[k..][1..] == hs[k + 1..];
        HashesBytesSnoc(Reverse(hs[k + 1..]), hs[k]);
        out := out + extras[k].hash.bytes;
      }
      assert hs[0..] == hs;
    }

    /** serialise */
    method Serialise(bytes: seq<byte>) returns (out: seq<byte>)
      requires Valid()
      modifies this`leafNodes, this`root, this`insertionStack, this`frames, this`tip, this`uninserted, this`pending
      modifies this`numHash, Nodes()
      ensures Valid() && Abstract() == old(Abstract()) && Abstract().Valid()
      ensures out == bytes + TreeBytes(H, Leaves(), numFlushed)
      ensures Leaves() != [] ==> Computed()
      ensures forall o :: o in Nodes() ==> o in old(Nodes()) || fresh(o)
    {
      hide Valid, Nodes, Leaves, Extras, HashesBytes, Reverse, BigEndian, Steps;
      ModelValid();
      assert allocated(TreeObjs()) && allocated(uninserted);
      out := SerialiseU64(|leafNodes| + |uninserted|, bytes);
      out := SerialiseU64(numFlushed, out);
      out := WriteLeaves(out);
      if NumLeaves() != 0 {
        var walked := WalkTo(MinIndex());
        assert allocated(TreeObjs()) && allocated(uninserted);
        ghost var hs;
        var extras;
        extras, hs := CollectExtras(walked.value, numFlushed);
        out := WriteExtras(extras, out, hs);
      }
    }

    lemma ModelValid()
      requires Valid()
      ensures Abstract().Valid() && NumLeaves() == |Leaves()| <= MAX_LEAVES && numFlushed <= |Leaves()|
      ensures |leafNodes| + |uninserted| == |Leaves()| - numFlushed
    {
      NumLeavesIsCount();
    }

    /** The loop of the segment form over the leaves from..to. */
    method WriteSegment(from: nat, to: nat, bytes: seq<byte>) returns (out: seq<byte>)
      requires Valid() && numFlushed <= from <= to < |Leaves()|
      ensures out == bytes + HashesBytes(Leaves()[from..to + 1])
    {
      hide Valid, Leaves, HashesBytes;
      ghost var ls := Leaves()[from..to + 1];
      out := bytes;
      NoHashes(ls);
      assert allocated(TreeObjs());
      for i := from to to + 1
        invariant Valid() && out == bytes + HashesBytes(ls[..i - from])
      {
        var leaf := LeafNode(i);
        HashesBytesSnoc(ls[..i - from], ls[i - from]);
        assert ls[..i - from + 1] == ls[..i - from] + [ls[i - from]];
        out := out + leaf.hash.bytes;
      }
      assert ls[..|ls|] == ls;
    }

    /**
     serialise of a segment. What is written is a whole tree as of leaf to, flushed up to leaf from. On an empty tree
     the source writes the two counts before it finds that there is no leaf.
     */
    method SerialiseSegment(from: nat, to: nat, bytes: seq<byte>) returns (r: Result<()>, out: seq<byte>)
      requires Valid()
      modifies this`leafNodes, this`root, this`insertionStack, this`frames, this`tip, this`uninserted, this`pending
      modifies this`numHash, Nodes()
      ensures Valid() && Abstract() == old(Abstract())
      ensures if !Abstract().InRange(from) || !Abstract().InRange(to) || from > to then
                r == Failure(InvalidLeafIndices) && out == bytes
              else if Leaves() == [] then
                r == Failure(LeafIndexOutOfBounds) && out == bytes + BigEndian(1, 8) + BigEndian(0, 8)
              else
                r == Success(()) && out == bytes + TreeBytes(H, Leaves()[..to + 1], from)
      ensures forall o :: o in Nodes() ==> o in old(Nodes()) || fresh(o)
    {
      hide Valid, Nodes, Leaves, Extras, HashesBytes, Reverse, BigEndian, Steps;
      ModelValid();
      assert allocated(TreeObjs()) && allocated(uninserted);
      if (from < MinIndex() || MaxIndex() < from) || (to < MinIndex() || MaxIndex() < to) || from > to {
        return Failure(InvalidLeafIndices), bytes;
      }
      out := SerialiseU64(to - from + 1, bytes);
      out := SerialiseU64(from, out);
      if NumLeaves() == 0 {
        return Failure(LeafIndexOutOfBounds), out;
      }
      ghost var ls := Leaves()[..to + 1];
      assert ls[from..] == Leaves()[from..to + 1];
      out := WriteSegment(from, to, out);
      var walked := WalkTo(from);
      assert allocated(TreeObjs()) && allocated(uninserted);
      ghost var hs;
      var extras;
      extras, hs := CollectExtras(walked.value, from);
      ExtrasOfPrefix(H, Leaves(), from, to + 1);
      out := WriteExtras(extras, out, hs);
      r := Success(());
    }

    /** serialised_size */
    method SerialisedSize() returns (size: nat)
      requires Valid()
      modifies this`leafNodes, this`root, this`insertionStack, this`frames, this`tip, this`uninserted, this`pending
      modifies this`numHash, Nodes()
      ensures Valid() && Abstract() == old(Abstract()) && Abstract().Valid()
      ensures size == |TreeBytes(H, Leaves(), numFlushed)|
      ensures forall o :: o in Nodes() ==> o in old(Nodes()) || fresh(o)
    {
      hide Valid, Nodes, Leaves, Extras, HashesBytes, Reverse, BigEndian, Steps;
      ModelValid();
      var numExtras := 0;
      if NumLeaves() != 0 {
        var walked := WalkTo(MinIndex());
        assert allocated(TreeObjs()) && allocated(uninserted);
        ghost var hs;
        var extras;
        extras, hs := CollectExtras(walked.value, numFlushed);
        ReverseLength(hs);
        numExtras := |extras|;
        ModelValid();
      }
      size := 8 + 8 + |leafNodes| * HASH_SIZE + numExtras * HASH_SIZE;
    }

    /** serialised_size of a segment, in the source's unsigned arithmetic; the end of the segment is not checked. */
    method SerialisedSegmentSize(from: nat, to: nat) returns (r: Result<nat>)
      requires Valid()
      modifies this`leafNodes, this`root, this`insertionStack, this`frames, this`tip, this`uninserted, this`pending
      modifies this`numHash, Nodes()
      ensures Valid() && Abstract() == old(Abstract())
      ensures match Abstract().WalkError(from)
              case Some(e) => r == Failure(e)
              case None => r.Success? && (from <= to < |Leaves()| ==>
                             r.value == |TreeBytes(H, Leaves()[..to + 1], from)|)
      ensures forall o :: o in Nodes() ==> o in old(Nodes()) || fresh(o)
    {
      hide Valid, Nodes, Leaves, Extras, HashesBytes, Reverse, BigEndian, Steps;
      ModelValid();
      var walked := WalkTo(from);
      if walked.Failure? {
        return Failure(walked.error);
      }
      assert allocated(TreeObjs()) && allocated(uninserted);
      ghost var hs;
      var extras;
      extras, hs := CollectExtras(walked.value, from);
      ReverseLength(hs);
      ModelValid();
      var numExtras := |extras|;
      r := Success((8 + 8 + (to - from + 1) * HASH_SIZE + numExtras * HASH_SIZE) % U64_LIMIT);
      if from <= to < |Leaves()| {
        SegmentBytes(H, Leaves(), from, to, numExtras);
      }
    }

    lemma NothingHeld()
      requires tip == None && frames == [] && insertionStack == [] && uninserted == [] && pending == []
      requires root == null && leafNodes == [] && numFlushed == 0
      ensures Valid() && Settled() && Leaves() == [] && Nodes() == {}
    {}

    /**
     deserialise: given the bytes of a tree, rebuilds that tree, and returns the position after it. Whatever the
     object held before is dropped.
     */
    method Deserialise(bytes: seq<byte>, position: nat, ghost ls: seq<Hash>, ghost f: nat) returns (next: nat)
      requires (f < |ls| || f == |ls| == 0) && |ls| <= MAX_LEAVES
      requires Unread(bytes, position, TreeBytes(H, ls, f))
      modifies this`leafNodes, this`root, this`insertionStack, this`frames, this`tip, this`uninserted, this`pending
      modifies this`numFlushed
      ensures Valid() && Settled() && uninserted == []
      ensures Leaves() == ls && numFlushed == f && fresh(Nodes())
      ensures next == position + |TreeBytes(H, ls, f)|
    {
      hide Unread, TreeBytes, StillUnread, LeafRow, Rebuilt, BlocksIn, Blocks, HashesBytes, Valid, Leaves, Nodes;
      hide Shape.Canonical, Shape.Linked, Shape.Distinct, Shape.Content, Shape.Objs, Shape.LeafObjs, Shape.Flushed;
      hide Pow2, TreeHash, FromBigEndian, Waiting, Grown, Inserted, TreeObjs, IsLeafNode, Whole;
      leafNodes, uninserted, insertionStack, root := [], [], [], null;
      frames, pending, tip := [], [], None;
      UnreadTree(H, bytes, position, ls, f);
      var numLeafNodes;
      numLeafNodes, next := DeserialiseU64(bytes, position);
      numFlushed, next := DeserialiseU64(bytes, next);
      ghost var row;
      leafNodes, next, row := ReadLeaves(H, bytes, next, numLeafNodes, ls[f..]);
      LeafRowLength(H, leafNodes, row, ls[f..]);
      // without leaves the loop over the levels has nothing to do
      if leafNodes == [] {
        NothingHeld();
      } else {
        LeafRowRebuilt(H, leafNodes, row, ls, f);
        ghost var t;
        root, next, t := RebuildLevels(H, bytes, next, leafNodes, numFlushed, row, ls);
        assert forall n: Node :: n in t.Objs() ==> n as object != this;
        tip := Some(t);
        WholeTree(t);
      }
    }

    /** The nodes copied for the leaves still waiting. */
    ghost predicate CopiedWaiting(nodes: seq<Node>, hs: seq<Hash>)
      reads nodes
    {
      && |nodes| == |hs| && (forall i :: 0 <= i < |nodes| ==> IsLeafNode(nodes[i], hs[i]))
      && forall i, j :: 0 <= i < j < |nodes| ==> nodes[i] != nodes[j]
    }

    method CopyWaiting(other: TreeT) returns (nodes: seq<Node>)
      requires other.Waiting()
      ensures CopiedWaiting(nodes, other.pending) && forall i :: 0 <= i < |nodes| ==> fresh(nodes[i])
    {
      nodes := [];
      assert allocated(other.TreeObjs()) && allocated(other.uninserted);
      for i := 0 to |other.uninserted|
        invariant |nodes| == i && forall k :: 0 <= k < i ==> IsLeafNode(nodes[k], other.pending[k]) && fresh(nodes[k])
        invariant forall j, k :: 0 <= j < k < i ==> nodes[j] != nodes[k]
      {
        assert IsLeafNode(other.uninserted[i], other.pending[i]);
        var n := new Node.Leaf(other.uninserted[i].hash);
        nodes := nodes + [n];
      }
    }

    /** The copy operator= makes of the current root, before it is put in place. */
    method CopyRoot(other: TreeT) returns (copy: Node?, ends: seq<Node>, ghost s: Option<Shape>)
      requires other.H == H && other.Valid()
      ensures other.Valid() && s.Some? == other.tip.Some?
      ensures s == None ==> copy == null && ends == []
      ensures s.Some? ==>
        && copy == s.value.o && FormOf(s.value) == FormOf(other.tip.value)
        && s.value.Canonical() && s.value.Distinct() && s.value.Linked(H)
        && ends == Appended(other.numFlushed % 2, Ends(s.value)) && fresh(s.value.Objs())
    {
      hide Shape.Canonical, Shape.Distinct, Shape.Objs, Shape.Linked, Zipped, Plug, FramesObjs, Ends, FormOf;
      var toSkip := if other.numFlushed % 2 == 0 then 0 else 1;
      copy, ends, s := null, [], None;
      assert allocated(other.TreeObjs()) && allocated(other.uninserted);
      if other.root != null {
        other.StandingRoot();
        ghost var t;
        copy, ends, toSkip, t := CopyNode(H, other.root, [], toSkip, other.tip.value);
        s := Some(t);
      }
    }

    /** The current root is one linked tree, whatever is above it. */
    lemma StandingRoot()
      requires Valid() && tip.Some?
      ensures var t := tip.value;
        root == t.o && t.Canonical() && t.Distinct() && t.Linked(H) && t.Objs() <= TreeObjs()
    {
      PlugApart(frames, tip.value);
    }

    /** How much of the tree the current root holds. */
    lemma RootHolds()
      requires Valid() && tip.Some?
      ensures tip.value.Canonical() && !tip.value.Pruned? && (tip.value.Content() == Inserted() <==> Settled())
      ensures tip.value.Content() == Inserted()[RootFrom()..]
      ensures tip.value.Flushed() == Beyond(numFlushed, RootFrom()) && (RootFrom() == 0 <==> Settled())
      ensures !Settled() ==> HalfBits(|Inserted()|) > 2
    {
      ZippedStack(H, frames, tip.value, insertionStack);
      RootShare(frames, tip.value);
      PlugSuffix(frames, tip.value);
    }

    /** The first leaf below the current root. */
    ghost function RootFrom(): (k: nat)
      reads this
      ensures k <= |Inserted()| && k % 2 == 0
      ensures |Inserted()| - k == if Settled() then |Inserted()| else RootLeaves(|Inserted()|)
    {
      RootStart(|Inserted()|, Settled())
    }

    /**
     What operator= has made, from a root that begins at leaf k of the inserted leaves ls: it lists those leaves, and is
     consistent unless there are flushed leaves that it does not hold.
     */
    lemma CopiedRoot(t: Shape, s: Shape, ls: seq<Hash>, k: nat)
      requires t.Canonical() && !t.Pruned? && k <= |ls| && k % 2 == 0 && |ls| + |pending| <= MAX_LEAVES
      requires t.Content() == ls[k..] && t.Flushed() == Beyond(numFlushed, k)
      requires FormOf(s) == FormOf(t) && s.Canonical() && s.Distinct() && s.Linked(H)
      requires root == s.o && tip == Some(s) && frames == [] && insertionStack == [] && Waiting()
      requires leafNodes == Appended(numFlushed % 2, Ends(s))
      ensures Inserted() == ls[k..] && Leaves() == ls[k..] + pending && leafNodes == Listed(s, numFlushed, k)
      ensures Valid() <==> k == 0 || numFlushed == 0
    {
      hide Waiting, Zipped, StackOf, Plug, FormOf, Ends, Appended;
      hide Shape.Canonical, Shape.Distinct, Shape.Linked, Shape.Content, Shape.LeafObjs, Shape.Flushed, Shape.Objs;
      SameForm(t, s);
      ListedLeaves(s, numFlushed, k);
      NoFrames(H, s);
    }

    /** The assignments of operator=. */
    method Install(copy: Node?, ends: seq<Node>, waiting: seq<Node>, flushed: nat, ghost s: Option<Shape>,
                   ghost hs: seq<Hash>)
      requires CopiedWaiting(waiting, hs)
      requires s.Some? ==> s.value.Canonical() && s.value.Linked(H)
      requires s.Some? ==> forall i :: 0 <= i < |waiting| ==> waiting[i] !in s.value.Objs()
      modifies this`leafNodes, this`root, this`insertionStack, this`frames, this`tip, this`uninserted, this`pending
      modifies this`numFlushed
      ensures root == copy && leafNodes == ends && uninserted == waiting && numFlushed == flushed
      ensures tip == s && frames == [] && insertionStack == [] && pending == hs && Waiting() && Settled()
      ensures Nodes() == (if s.Some? then s.value.Objs() else {}) + set n | n in waiting
      ensures s.Some? ==> s.value.Linked(H)
      ensures TreeObjs() == if s.Some? then s.value.Objs() else {}
    {
      hide Shape.Canonical, Shape.Objs, Shape.Linked, CopiedWaiting, Waiting, TreeObjs;
      assert s.Some? ==> forall n: Node :: n in s.value.Objs() ==> n as object != this;
      assert forall n: Node :: n in waiting ==> n as object != this;
      leafNodes, uninserted, insertionStack, root, numFlushed := ends, waiting, [], copy, flushed;
      frames, tip, pending := [], s, hs;
      CopiesWait(s);
    }

    lemma CopiesWait(s: Option<Shape>)
      requires CopiedWaiting(uninserted, pending) && frames == [] && tip == s
      requires s.Some? ==> forall i :: 0 <= i < |uninserted| ==> uninserted[i] !in s.value.Objs()
      ensures Waiting() && TreeObjs() == (if s.Some? then s.value.Objs() else {})
    {
      if s.Some? {
        NoFrames(H, s.value);
      }
    }

    /**
     operator= copies the current root onto fresh nodes, passing over one node of size one when an odd number of leaves
     has been flushed, and the waiting leaves; it drops the insertion stack. So the copy lacks the leaves above the
     current root. It is consistent unless leaves are flushed that it lacks.
     */
    method Assign(other: TreeT)
      requires other != this && other.H == H && other.Valid()
      modifies this`leafNodes, this`root, this`insertionStack, this`frames, this`tip, this`uninserted, this`pending
      modifies this`numFlushed
      ensures Settled() && fresh(Nodes())
      ensures numFlushed == other.numFlushed && pending == other.pending && |uninserted| == |other.uninserted|
      ensures tip.Some? == other.tip.Some?
      ensures tip.Some? ==>
        && root == tip.value.o && tip.value.Canonical() && tip.value.Linked(H)
        && FormOf(tip.value) == FormOf(other.tip.value)
        && leafNodes == Listed(tip.value, numFlushed, other.RootFrom())
      ensures Inserted() == other.Inserted()[other.RootFrom()..]
      ensures Leaves() == other.Leaves() <==> other.Settled()
      ensures Valid() <==> other.Settled() || numFlushed == 0
      ensures other.Valid() && other.Progress() == old(other.Progress()) && other.Abstract() == old(other.Abstract())
    {
      hide *;
      var copy, ends;
      ghost var s;
      copy, ends, s := CopyRoot(other);
      other.ValidParts();
      assert allocated(other.TreeObjs()) && allocated(other.uninserted);
      assert s.Some? ==> allocated(s.value.Objs());
      var waiting := CopyWaiting(other);
      assert forall n: Node :: n in other.TreeObjs() ==> n as object != this;
      assert forall n: Node :: n in other.uninserted ==> n as object != this;
      Install(copy, ends, waiting, other.numFlushed, s, other.pending);
      other.ValidParts();
      SameLeaves(other.Inserted(), other.RootFrom(), pending, pending);
      if s.Some? {
        other.RootHolds();
        CopiedRoot(other.tip.value, s.value, other.Inserted(), other.RootFrom());
      } else {
        EmptyTreeWaits();
      }
    }

    /**
     operator= of a tree to itself, which the source does not rule out: the waiting leaves have been dropped when they
     come to be copied, and so has everything above the current root.
     */
    method AssignToItself()
      requires Valid()
      modifies this`leafNodes, this`root, this`insertionStack, this`frames, this`tip, this`uninserted, this`pending
      modifies this`numFlushed
      ensures Settled() && fresh(Nodes()) && numFlushed == old(numFlushed) && uninserted == [] && pending == []
      ensures tip.Some? == old(tip.Some?)
      ensures tip.Some? ==>
        FormOf(tip.value) == FormOf(old(tip.value)) && leafNodes == Listed(tip.value, numFlushed, old(RootFrom()))
      ensures Leaves() == old(Inserted()[RootFrom()..])
      ensures Leaves() == old(Leaves()) <==> old(Settled()) && old(uninserted) == []
      ensures Valid() <==> old(Settled()) || numFlushed == 0
    {
      hide *;
      var copy, ends;
      ghost var s;
      copy, ends, s := CopyRoot(this);
      ValidParts();
      ghost var t, was, k := tip, Inserted(), RootFrom();
      if t.Some? {
        RootHolds();
      }
      NothingToCopy();
      Install(copy, ends, [], numFlushed, s, []);
      SameLeaves(was, k, old(pending), []);
      if s.Some? {
        CopiedRoot(t.value, s.value, was, k);
      } else {
        EmptyTreeWaits();
      }
    }

    /** A list that lacks the first k leaves, and perhaps the waiting ones, is the same only if it lacks none. */
    static lemma SameLeaves(ls: seq<Hash>, k: nat, hs: seq<Hash>, hs': seq<Hash>)
      requires k <= |ls| && (hs' == hs || hs' == [])
      ensures ls[k..] + hs' == ls + hs <==> k == 0 && hs' == hs
    {}

    lemma NodeParts()
      ensures TreeObjs() <= Nodes() && forall n :: n in uninserted ==> n in Nodes()
    {}

    lemma ValidParts()
      requires Valid()
      ensures Waiting() && |uninserted| == |pending| && Leaves() == Inserted() + pending && |Leaves()| <= MAX_LEAVES
      ensures tip == None ==> numFlushed == 0 && Inserted() == [] && Settled()
    {}

    lemma EmptyTreeWaits()
      requires tip == None && frames == [] && insertionStack == [] && root == null && leafNodes == [] && numFlushed == 0
      requires Waiting() && |pending| <= MAX_LEAVES
      ensures Valid() && Leaves() == pending && Inserted() == [] && Settled()
    {}

    lemma NothingToCopy()
      ensures CopiedWaiting([], [])
    {}

    /** The source reads the size of the current root. */
    lemma RootSize()
      requires Valid() && tip.Some?
      ensures root.size == 2 * tip.value.Count() - 1 && tip.value.Count() >= 1
    {
      StandingRoot();
      Bounds(tip.value);
      Counts(tip.value);
      LinkedTop(H, tip.value);
    }

    /** What insertions leave behind when nothing waits, in terms of the number of leaves. */
    lemma FramesLeft(shallow: bool)
      requires Valid() && pending == [] && tip.Some? && (shallow ==> ShallowAt(frames, tip.value))
      ensures Settled() ==> tip.value.Count() == |Leaves()|
      ensures !Settled() ==> tip.value.Count() == RootLeaves(|Leaves()|) < |Leaves()| && HalfBits(|Leaves()|) > 2
      ensures shallow ==> tip.value.Count() == RootLeaves(|Leaves()|) && (Settled() <==> HalfBits(|Leaves()|) <= 2)
    {
      ZippedStack(H, frames, tip.value, insertionStack);
      RootShare(frames, tip.value);
      RootLeavesAll(|Leaves()|);
    }

    /**
     size. Nothing is completed, so an insertion under way hides the nodes above the current root. The result is the
     number of nodes of the tree exactly when afterwards no insertion is under way, which a caller can see by
     comparing it with the number of leaves.
     */
    method Size() returns (size: nat)
      requires Valid()
      modifies this`leafNodes, this`root, this`insertionStack, this`frames, this`tip, this`uninserted, this`pending
      modifies Nodes()
      ensures Valid() && Abstract() == old(Abstract())
      ensures Progress() == Abstract().SizeProgress(old(Progress())) && size == Abstract().Size(old(Progress()))
      ensures Leaves() != [] ==> tip.Some? && (size == 2 * |Leaves()| - 1 <==> Settled())
      ensures forall o :: o in Nodes() ==> o in old(Nodes()) || fresh(o)
    {
      hide Grown, Waiting, Zipped, FramesObjs, TreeObjs, ShallowAt, HalfBits, RootLeaves;
      ghost var waited := uninserted != [];
      if uninserted != [] {
        InsertLeaves(false);
      }
      NothingPending();
      if tip.Some? {
        RootSize();
        FramesLeft(waited);
      }
      size := if root != null then root.size else 0;
    }

    lemma NothingPending()
      requires Valid() && uninserted == []
      ensures pending == [] && (root != null <==> tip.Some?) && (tip == None ==> Leaves() == [])
    {}
  }
}
