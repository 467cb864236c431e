/**
 The zipper behind lazy insertion: a subtree together with the frames above it. Every frame is an inner node on the
 right edge whose left subtree is complete; the hole is its right child.
 */
module MerkleZipper {
  import opened Bytes
  import opened Rfc6962
  import opened MerkleNode

  datatype Frame = Frame(o: Node, l: Shape)

  /** The whole tree: the subtree put back below its frames, innermost frame last. */
  ghost function Plug(fs: seq<Frame>, t: Shape): Shape {
    if fs == [] then t
    else
      var f := fs[|fs| - 1];
      Plug(fs[..|fs| - 1], Fork(f.o, f.l, t))
  }

  lemma PlugSnoc(fs: seq<Frame>, f: Frame, t: Shape)
    ensures Plug(fs + [f], t) == Plug(fs, Fork(f.o, f.l, t))
  {
    assert (fs + [f])[..|fs|] == fs;
  }

  ghost predicate FrameLinked(H: HashFn, f: Frame)
    reads f.o, f.l.Objs()
  {
    f.o.left == f.l.o && f.o.dirty && f.l.Canonical() && f.l.Linked(H)
  }

  ghost function FrameObjs(f: Frame): set<Node> {
    {f.o} + f.l.Objs()
  }

  ghost function FramesObjs(fs: seq<Frame>): set<Node> {
    if fs == [] then {} else FramesObjs(fs[..|fs| - 1]) + FrameObjs(fs[|fs| - 1])
  }

  /** Every frame is dirty and holds its left subtree. Its size and height may be out of date. */
  ghost predicate FramesLinked(H: HashFn, fs: seq<Frame>)
    reads FramesObjs(fs)
  {
    fs != [] ==> FrameLinked(H, fs[|fs| - 1]) && FramesLinked(H, fs[..|fs| - 1])
  }

  /** Every frame points to the next one, and the innermost one to the hole. */
  ghost predicate RightLinks(fs: seq<Frame>, hole: Node)
    reads FramesObjs(fs)
  {
    fs != [] ==> fs[|fs| - 1].o.right == hole && RightLinks(fs[..|fs| - 1], fs[|fs| - 1].o)
  }

  /** The same without the innermost frame's pointer. */
  ghost predicate Chained(fs: seq<Frame>)
    reads FramesObjs(fs)
  {
    fs != [] ==> RightLinks(fs[..|fs| - 1], fs[|fs| - 1].o)
  }

  /** The frames share no nodes. */
  ghost predicate Separate(fs: seq<Frame>) {
    fs != [] ==>
      var f, up := fs[|fs| - 1], fs[..|fs| - 1];
      f.o !in f.l.Objs() && FramesObjs(up) !! FrameObjs(f) && Separate(up)
  }

  lemma {:induction false} PlugApart(fs: seq<Frame>, t: Shape)
    requires Plug(fs, t).Distinct()
    ensures t.Distinct() && Separate(fs) && FramesObjs(fs) !! t.Objs()
    ensures Plug(fs, t).Objs() == FramesObjs(fs) + t.Objs()
  {
    if fs != [] {
      var f, up := fs[|fs| - 1], fs[..|fs| - 1];
      PlugApart(up, Fork(f.o, f.l, t));
    }
  }

  lemma {:induction false} PlugCanonical(fs: seq<Frame>, t: Shape)
    requires Plug(fs, t).Canonical()
    ensures t.Canonical()
    ensures fs != [] ==> !t.Pruned? && Fork(fs[|fs| - 1].o, fs[|fs| - 1].l, t).Canonical()
    ensures t.Height() <= Plug(fs, t).Height() && t.Count() <= Plug(fs, t).Count()
  {
    if fs != [] {
      var f := fs[|fs| - 1];
      PlugCanonical(fs[..|fs| - 1], Fork(f.o, f.l, t));
    }
  }

  /** A subtree with room left means room in every tree above it. */
  lemma RoomAbove(o: Node, l: Shape, t: Shape)
    requires Fork(o, l, t).Canonical() && !t.Perfect()
    ensures !Fork(o, l, t).Perfect()
  {
    Bounds(t);
    Bounds(l);
    Bounds(Fork(o, l, t));
    Pow2Monotone(t.Height() - 1, l.Height() - 1);
  }

  /** Inserting below the frames is inserting into the whole tree, as long as the innermost frame has room. */
  lemma {:induction false} InsertPlug(fs: seq<Frame>, t: Shape, nw: Node, leaf: Shape)
    requires Plug(fs, t).Canonical()
    requires fs != [] ==> !Fork(fs[|fs| - 1].o, fs[|fs| - 1].l, t).Perfect()
    ensures Plug(fs, t.Insert(nw, leaf)) == Plug(fs, t).Insert(nw, leaf)
  {
    if fs != [] {
      var f, up := fs[|fs| - 1], fs[..|fs| - 1];
      var t' := Fork(f.o, f.l, t);
      PlugCanonical(up, t');
      if up != [] {
        RoomAbove(up[|up| - 1].o, up[|up| - 1].l, t');
      }
      InsertPlug(up, t', nw, leaf);
    }
  }

  /** Heap facts about an open zipper: frames and subtree are linked, and the frames lead to the subtree. */
  ghost predicate Open(H: HashFn, fs: seq<Frame>, t: Shape)
    reads FramesObjs(fs), t.Objs()
  {
    t.Canonical() && t.Linked(H) && FramesLinked(H, fs) && RightLinks(fs, t.o)
  }

  /** The innermost frame still has room for a leaf. */
  ghost predicate Room(fs: seq<Frame>, t: Shape) {
    fs != [] ==> !Fork(fs[|fs| - 1].o, fs[|fs| - 1].l, t).Perfect()
  }

  /** What is linked at and below the root of the subtree. */
  ghost predicate Parts(H: HashFn, fs: seq<Frame>, t: Shape)
    requires t.Fork? && t.Canonical()
    reads FramesObjs(fs), t.Objs()
  {
    && t.l.Linked(H) && t.r.Linked(H) && t.o.left == t.l.o && t.o.right == t.r.o
    && t.o.size == t.Size() && t.o.height == t.Height()
    && FramesLinked(H, fs) && RightLinks(fs, t.o)
  }

  lemma PartsOf(H: HashFn, fs: seq<Frame>, t: Shape)
    requires t.Fork? && Open(H, fs, t) && t.Distinct() && FramesObjs(fs) !! t.Objs()
    ensures Parts(H, fs, t)
    ensures t.o in t.Objs() && t.o !in t.l.Objs() && t.o !in t.r.Objs() && t.o !in FramesObjs(fs)
    ensures t.r.Objs() <= t.Objs()
  {}

  /** One step down to the right: the dirty root of the subtree becomes the innermost frame. */
  lemma Descend(H: HashFn, fs: seq<Frame>, t: Shape)
    requires t.Fork? && t.Canonical() && Parts(H, fs, t) && t.o.dirty && !t.Perfect()
    ensures var fs' := fs + [Frame(t.o, t.l)];
      && Plug(fs', t.r) == Plug(fs, t)
      && Open(H, fs', t.r) && Room(fs', t.r)
      && t.o.right == t.r.o && !t.r.Pruned?
  {
    assert (fs + [Frame(t.o, t.l)])[..|fs|] == fs;
  }

  /** The node o has the linked subtrees l and r below it and is dirty; its size may be out of date. */
  ghost predicate Hangs(H: HashFn, o: Node, l: Shape, r: Shape)
    reads o, l.Objs(), r.Objs()
  {
    && o.left == l.o && o.right == r.o && o.dirty
    && l.Canonical() && l.Linked(H) && r.Canonical() && r.Linked(H)
  }

  /** With its sizes updated, such a node is linked. */
  lemma HangsLinked(H: HashFn, o: Node, l: Shape, r: Shape)
    requires Hangs(H, o, l, r) && Fork(o, l, r).Canonical()
    requires o.size == l.o.size + r.o.size + 1 && o.height == Max(l.o.height, r.o.height) + 1
    ensures Fork(o, l, r).Linked(H)
  {}

  lemma LinkedTop(H: HashFn, t: Shape)
    requires t.Canonical() && t.Linked(H)
    ensures t.o in t.Objs() && t.o.size == t.Size() && t.o.height == t.Height()
    ensures !t.o.dirty ==> t.o.hash == t.Root(H)
  {}

  lemma OpenAtTop(H: HashFn, t: Shape)
    requires t.Canonical() && t.Linked(H)
    ensures Open(H, [], t)
  {}

  /** One step up: the innermost frame, which the subtree is to be hung below. */
  lemma Ascend(H: HashFn, fs: seq<Frame>, t: Shape)
    requires fs != [] && FramesLinked(H, fs) && Chained(fs)
    requires Plug(fs, t).Canonical() && Plug(fs, t).Distinct()
    ensures var f, up := fs[|fs| - 1], fs[..|fs| - 1];
      && Plug(up, Fork(f.o, f.l, t)) == Plug(fs, t) && Fork(f.o, f.l, t).Canonical()
      && f.o in FramesObjs(fs) && FramesObjs(up) <= FramesObjs(fs)
      && f.o !in t.Objs() && f.o !in f.l.Objs() && f.o !in FramesObjs(up)
      && FrameLinked(H, f) && FramesLinked(H, up) && RightLinks(up, f.o) && Chained(up)
  {
    PlugCanonical(fs, t);
    PlugApart(fs, t);
  }

  /** The leaf nodes carry the hashes of the leaves that have not been flushed, in order. */
  ghost predicate LeavesRight(t: Shape)
    reads t.LeafObjs()
  {
    forall j :: 0 <= j < |t.LeafObjs()| && t.Flushed() + j < t.Count() ==>
      t.LeafObjs()[j].hash == t.Content()[t.Flushed() + j]
  }

  lemma LeavesOfFork(o: Node, l: Shape, r: Shape)
    requires Fork(o, l, r).Canonical() && LeavesRight(l) && LeavesRight(r)
    ensures LeavesRight(Fork(o, l, r))
  {
    hide Shape.Size, Shape.Height, Shape.Perfect;
    Counts(l);
    Counts(r);
    var t := Fork(o, l, r);
    forall j | 0 <= j < |t.LeafObjs()| && t.Flushed() + j < t.Count()
      ensures t.LeafObjs()[j].hash == t.Content()[t.Flushed() + j]
    {
      if j < |l.LeafObjs()| {
        assert t.LeafObjs()[j] == l.LeafObjs()[j];
        assert t.Content()[t.Flushed() + j] == l.Content()[l.Flushed() + j];
      } else {
        var k := j - |l.LeafObjs()|;
        assert t.LeafObjs()[j] == r.LeafObjs()[k];
        assert t.Content()[t.Flushed() + j] == r.Content()[r.Flushed() + k];
      }
    }
  }

  lemma {:induction false} LinkedLeaves(H: HashFn, t: Shape)
    requires t.Canonical() && t.Linked(H)
    ensures LeavesRight(t)
  {
    if t.Fork? {
      LinkedLeaves(H, t.l);
      LinkedLeaves(H, t.r);
      LeavesOfFork(t.o, t.l, t.r);
    }
  }

  /** This holds wherever the frames end, although sizes above the frames are out of date. */
  lemma {:induction false} PlugLeaves(H: HashFn, fs: seq<Frame>, t: Shape)
    requires FramesLinked(H, fs) && LeavesRight(t) && Plug(fs, t).Canonical()
    ensures LeavesRight(Plug(fs, t))
  {
    if fs != [] {
      var f, up := fs[|fs| - 1], fs[..|fs| - 1];
      LinkedLeaves(H, f.l);
      PlugCanonical(fs, t);
      LeavesOfFork(f.o, f.l, t);
      PlugLeaves(H, up, Fork(f.o, f.l, t));
    }
  }

  /** Every frame adds leaves. */
  lemma {:induction false} PlugCount(fs: seq<Frame>, t: Shape)
    requires Plug(fs, t).Canonical()
    ensures t.Canonical() && t.Count() + |fs| <= Plug(fs, t).Count()
    decreases |fs|
  {
    if fs != [] {
      var f := fs[|fs| - 1];
      PlugCount(fs[..|fs| - 1], Fork(f.o, f.l, t));
      Bounds(f.l);
    }
  }

  /** Of f flushed leaves, how many lie at or after leaf k. */
  function Beyond(f: nat, k: nat): nat {
    if f > k then f - k else 0
  }

  /** What is plugged in holds the last leaves of the whole, and the flushed ones among them. */
  lemma {:induction false} PlugSuffix(fs: seq<Frame>, t: Shape)
    requires Plug(fs, t).Canonical()
    ensures var w := Plug(fs, t); t.Count() <= w.Count() && t.Content() == w.Content()[w.Count() - t.Count()..]
    ensures var w := Plug(fs, t); t.Flushed() == Beyond(w.Flushed(), w.Count() - t.Count())
    decreases |fs|
  {
    if fs != [] {
      var f, up := fs[|fs| - 1], fs[..|fs| - 1];
      var above := Fork(f.o, f.l, t);
      PlugCanonical(up, above);
      PlugSuffix(up, above);
      AboveSuffix(above, Plug(up, above));
    }
  }

  lemma AboveSuffix(t: Shape, w: Shape)
    requires t.Fork? && t.Canonical() && t.Count() <= w.Count()
    requires t.Content() == w.Content()[w.Count() - t.Count()..]
    requires t.Flushed() == Beyond(w.Flushed(), w.Count() - t.Count())
    ensures t.r.Count() <= w.Count() && t.r.Content() == w.Content()[w.Count() - t.r.Count()..]
    ensures t.r.Flushed() == Beyond(w.Flushed(), w.Count() - t.r.Count())
  {
    Counts(t.l);
    hide Shape.Perfect, Shape.Size, Shape.Height, Shape.LeafObjs;
    assert t.Content() == t.l.Content() + t.r.Content();
    assert t.r.Content() == t.Content()[t.l.Count()..];
  }
}
