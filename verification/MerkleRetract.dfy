/**
 Retracting: the walk to the new last leaf overwrites every node where it turns left with its own left child, and the
 sizes above are repaired on the way back.
 */
module MerkleRetract {
  import opened Rfc6962
  import opened MerkleNode
  import opened MerkleZipper
  import opened MerkleWalk

  /** The same tree with its root stored in another node. */
  ghost function Reroot(t: Shape, top: Node): Shape {
    match t
    case Leaf(_, h) => Leaf(top, h)
    case Pruned(_, ht, ls) => Pruned(top, ht, ls)
    case Fork(_, l, r) => Fork(top, l, r)
  }

  lemma RerootSame(t: Shape, top: Node, i: nat)
    requires t.Canonical()
    ensures Reroot(t, top).Retract(top, i) == t.Retract(top, i)
    ensures Reroot(t, top).Canonical() && Reroot(t, top).Height() == t.Height()
    ensures Reroot(t, top).Content() == t.Content() && Reroot(t, top).Flushed() == t.Flushed()
    ensures Reroot(t, top).Pruned? == t.Pruned? && Reroot(t, top).o == top
    ensures t.Distinct() && top !in t.Objs() ==>
      Reroot(t, top).Distinct() && Reroot(t, top).Objs() <= t.Objs() + {top}
  {}

  /**
   The nodes visited, outermost first: every frame is there and nothing else but repetitions, then the subtree's
   root.
   */
  ghost predicate Visits(walkStack: seq<Node>, fs: seq<Frame>, o: Node)
    decreases |walkStack|
  {
    if walkStack == [] then fs == []
    else
      var last, rest := walkStack[|walkStack| - 1], walkStack[..|walkStack| - 1];
      || (last == o && Visits(rest, fs, o))
      || (fs != [] && last == fs[|fs| - 1].o && Visits(rest, fs[..|fs| - 1], fs[|fs| - 1].o))
  }

  lemma VisitAgain(walkStack: seq<Node>, fs: seq<Frame>, o: Node)
    requires Visits(walkStack, fs, o)
    ensures Visits(walkStack + [o], fs, o)
  {
    assert (walkStack + [o])[..|walkStack|] == walkStack;
  }

  lemma VisitBelow(walkStack: seq<Node>, fs: seq<Frame>, f: Frame, o: Node)
    requires Visits(walkStack, fs, f.o)
    ensures Visits(walkStack + [f.o], fs + [f], o)
  {
    assert (walkStack + [f.o])[..|walkStack|] == walkStack;
    assert (fs + [f])[..|fs|] == fs;
  }

  /** The frames and the subtree below them, with their own nodes, linked but for the frames' sizes. */
  ghost predicate Hanging(H: HashFn, fs: seq<Frame>, t: Shape)
    reads FramesObjs(fs), t.Objs()
  {
    Open(H, fs, t) && t.Distinct() && Separate(fs) && FramesObjs(fs) !! t.Objs()
  }

  /** The walk of retract_to: still to be retracted is the subtree s. */
  ghost predicate RetractAt(H: HashFn, target: Shape, fs: seq<Frame>, s: Shape, rel: nat, it: nat, h: nat, cur: Node,
                            walkStack: seq<Node>)
    reads FramesObjs(fs), s.Objs()
  {
    && Heading(s, rel, h) && Cursor(it, rel, h) && cur == s.o && Hanging(H, fs, s)
    && Plug(fs, s.Retract(s.o, rel)) == target && Visits(walkStack, fs, s.o)
  }

  /** The root of s has the fields of its left child, and is dirty if that is an inner node. */
  ghost predicate Overwritten(H: HashFn, n: Node, l: Shape)
    reads n, l.Objs()
  {
    && l.Canonical() && n.size == l.Size() && n.height == l.Height()
    && match l
       case Leaf(_, h) => n.left == null && n.right == null && !n.dirty && n.hash == h
       case Pruned(_, _, _) => false
       case Fork(_, a, b) => n.left == a.o && n.right == b.o && n.dirty && a.Linked(H) && b.Linked(H)
  }

  lemma OverwrittenLinked(H: HashFn, n: Node, l: Shape)
    requires Overwritten(H, n, l)
    ensures Reroot(l, n).Canonical() && Reroot(l, n).Linked(H)
  {
    RerootSame(l, n, 0);
  }

  /** A height the tree does not have: only the word moves on. */
  lemma RetractSkip(H: HashFn, target: Shape, fs: seq<Frame>, s: Shape, rel: nat, it: nat, h: nat, cur: Node,
                    walkStack: seq<Node>)
    requires RetractAt(H, target, fs, s, rel, it, h, cur, walkStack) && h >= 2 && cur.height != h
    ensures RetractAt(H, target, fs, s, rel, ShiftLeft64(it, 1), h - 1, cur, walkStack + [cur])
  {
    hide ShiftLeft64, Cursor, TopBit, Heading, Plug, Visits;
    LinkedTop(H, s);
    WalkStep(s, it, rel, h);
    VisitAgain(walkStack, fs, cur);
  }

  /** What is known where the height is met. */
  lemma RetractMeet(H: HashFn, target: Shape, fs: seq<Frame>, s: Shape, rel: nat, it: nat, h: nat, cur: Node,
                    walkStack: seq<Node>)
    requires RetractAt(H, target, fs, s, rel, it, h, cur, walkStack) && h >= 2 && cur.height == h
    ensures s.Fork? && s.Canonical() && Parts(H, fs, s) && Hanging(H, fs, s) && cur == s.o
    ensures TopBit(it) <==> rel >= s.l.Count()
    ensures TopBit(it) ==>
      Heading(s.r, rel - s.l.Count(), h - 1) && Cursor(ShiftLeft64(it, 1), rel - s.l.Count(), h - 1)
    ensures !TopBit(it) ==> Heading(s.l, rel, h) && Cursor(it, rel, h) && !s.l.Pruned?
    ensures Plug(fs, s.Retract(s.o, rel)) == target && Visits(walkStack, fs, s.o)
    ensures s.o !in s.l.Objs() && s.o !in s.r.Objs() && s.o !in FramesObjs(fs) && s.o in s.Objs()
    ensures s.l.o in s.Objs() && s.l.o !in FramesObjs(fs) && s.l.o != s.o
  {
    hide ShiftLeft64, TopBit, Plug, Visits;
    LinkedTop(H, s);
    WalkStep(s, it, rel, h);
    PartsOf(H, fs, s);
    assert s.l.o in s.l.Objs();
  }

  /** A right turn: the node, marked dirty, becomes a frame. */
  lemma RetractRight(H: HashFn, target: Shape, fs: seq<Frame>, s: Shape, rel: nat, it: nat, h: nat,
                     walkStack: seq<Node>)
    requires h >= 2 && s.Fork? && s.Canonical() && Parts(H, fs, s) && s.o.dirty
    requires s.Distinct() && Separate(fs) && FramesObjs(fs) !! s.Objs()
    requires rel >= s.l.Count() && Heading(s.r, rel - s.l.Count(), h - 1) && Cursor(it, rel - s.l.Count(), h - 1)
    requires Plug(fs, s.Retract(s.o, rel)) == target && Visits(walkStack, fs, s.o)
    ensures RetractAt(H, target, fs + [Frame(s.o, s.l)], s.r, rel - s.l.Count(), it, h - 1, s.r.o, walkStack + [s.o])
    ensures FramesObjs(fs + [Frame(s.o, s.l)]) + s.r.Objs() <= FramesObjs(fs) + s.Objs()
  {
    hide Cursor, Heading, Shape.Linked, Visits;
    var f := Frame(s.o, s.l);
    VisitBelow(walkStack, fs, f, s.r.o);
    PlugSnoc(fs, f, s.r.Retract(s.r.o, rel - s.l.Count()));
    assert (fs + [f])[..|fs|] == fs;
  }

  /** A left turn: the node has become its left child, and the walk stays where it is. */
  lemma RetractLeft(H: HashFn, target: Shape, fs: seq<Frame>, s: Shape, rel: nat, it: nat, h: nat,
                    walkStack: seq<Node>)
    requires h >= 2 && s.Fork? && s.Canonical() && Overwritten(H, s.o, s.l)
    requires FramesLinked(H, fs) && RightLinks(fs, s.o)
    requires s.Distinct() && Separate(fs) && FramesObjs(fs) !! s.Objs()
    requires rel < s.l.Count() && Heading(s.l, rel, h) && Cursor(it, rel, h)
    requires Plug(fs, s.Retract(s.o, rel)) == target && Visits(walkStack, fs, s.o)
    ensures RetractAt(H, target, fs, Reroot(s.l, s.o), rel, it, h, s.o, walkStack + [s.o])
    ensures Reroot(s.l, s.o).Objs() <= s.Objs() && Reroot(s.l, s.o).Height() < s.Height()
  {
    hide Cursor, Overwritten, Visits, Shape.Linked, Shape.Canonical;
    RerootSame(s.l, s.o, rel);
    OverwrittenLinked(H, s.o, s.l);
    VisitAgain(walkStack, fs, s.o);
  }

  /** On the way back: the visited nodes still to be repaired lead from the repaired subtree t to the root. */
  ghost predicate Repairing(H: HashFn, target: Shape, fs: seq<Frame>, t: Shape, walkStack: seq<Node>)
    reads FramesObjs(fs), t.Objs()
  {
    && target.Canonical() && target.Distinct() && Plug(fs, t) == target
    && Open(H, fs, t) && !t.Pruned? && Visits(walkStack, fs, t.o)
  }

  lemma RetractArrived(H: HashFn, target: Shape, fs: seq<Frame>, s: Shape, rel: nat, it: nat, cur: Node,
                       walkStack: seq<Node>)
    requires RetractAt(H, target, fs, s, rel, it, 1, cur, walkStack) && target.Canonical() && target.Distinct()
    ensures s.Leaf? && cur == s.o && Repairing(H, target, fs, s, walkStack) && target.LastLeaf() == cur
  {
    Arrived(s, rel);
    PlugLastLeaf(fs, s);
  }

  lemma {:induction false} PlugLastLeaf(fs: seq<Frame>, t: Shape)
    ensures Plug(fs, t).LastLeaf() == t.LastLeaf()
  {
    if fs != [] {
      PlugLastLeaf(fs[..|fs| - 1], Fork(fs[|fs| - 1].o, fs[|fs| - 1].l, t));
    }
  }

  /** The node to repair next: the subtree's root once more, or the innermost frame. */
  lemma RepairNext(H: HashFn, target: Shape, fs: seq<Frame>, t: Shape, walkStack: seq<Node>)
    requires Repairing(H, target, fs, t, walkStack) && walkStack != []
    ensures var n, rest := walkStack[|walkStack| - 1], walkStack[..|walkStack| - 1];
      || (n == t.o && Visits(rest, fs, t.o))
      || (fs != [] && n == fs[|fs| - 1].o && Visits(rest, fs[..|fs| - 1], n))
  {}

  lemma RepairDone(H: HashFn, target: Shape, fs: seq<Frame>, t: Shape)
    requires Repairing(H, target, fs, t, [])
    ensures t == target && target.Linked(H)
  {}

  lemma SizesFixed(H: HashFn, t: Shape)
    requires t.Canonical() && t.Linked(H) && !t.Pruned?
    ensures t.Fork? ==>
      && t.o.left == t.l.o && t.o.right == t.r.o
      && t.o.size == t.l.o.size + t.r.o.size + 1 && t.o.height == Max(t.l.o.height, t.r.o.height) + 1
    ensures t.Leaf? ==> t.o.left == null && t.o.size == 1 && t.o.height == 1
  {}

  /** Updating the sizes of the repaired subtree's root once more changes nothing. */
  lemma RepairAgain(H: HashFn, target: Shape, fs: seq<Frame>, t: Shape, walkStack: seq<Node>)
    requires Repairing(H, target, fs, t, walkStack)
    ensures target.Canonical() && target.Distinct() && Plug(fs, t) == target && !t.Pruned? && t.Canonical()
    ensures t.Linked(H) && FramesLinked(H, fs) && RightLinks(fs, t.o)
    ensures t.Fork? ==>
      && t.o.left == t.l.o && t.o.right == t.r.o
      && t.o.size == t.l.o.size + t.r.o.size + 1 && t.o.height == Max(t.l.o.height, t.r.o.height) + 1
    ensures t.Leaf? ==> t.o.left == null && t.o.size == 1 && t.o.height == 1
  {
    hide Visits, Plug, FramesLinked, RightLinks, Shape.Linked, Shape.Canonical, Shape.Distinct;
    SizesFixed(H, t);
  }

  lemma RepairedAgain(H: HashFn, target: Shape, fs: seq<Frame>, t: Shape, rest: seq<Node>)
    requires target.Canonical() && target.Distinct() && Plug(fs, t) == target && !t.Pruned? && t.Canonical()
    requires t.Linked(H) && FramesLinked(H, fs) && RightLinks(fs, t.o) && Visits(rest, fs, t.o)
    ensures Repairing(H, target, fs, t, rest)
  {}

  /** The frame to repair: with its right child repaired and its sizes updated it becomes part of the subtree. */
  lemma RepairFrame(H: HashFn, target: Shape, fs: seq<Frame>, t: Shape, walkStack: seq<Node>)
    requires Repairing(H, target, fs, t, walkStack) && fs != []
    ensures var f, up := fs[|fs| - 1], fs[..|fs| - 1];
      && Hangs(H, f.o, f.l, t) && Fork(f.o, f.l, t).Canonical() && Plug(up, Fork(f.o, f.l, t)) == target
      && FramesLinked(H, up) && RightLinks(up, f.o)
      && f.o in FramesObjs(fs) && FramesObjs(up) <= FramesObjs(fs)
      && f.o !in t.Objs() && f.o !in f.l.Objs() && f.o !in FramesObjs(up) && f.o != t.o && f.o != f.l.o
    ensures target.Canonical() && target.Distinct()
  {
    hide Visits, Plug, Shape.Linked, Shape.Canonical, Shape.Distinct;
    Ascend(H, fs, t);
    assert t.o in t.Objs() && fs[|fs| - 1].l.o in fs[|fs| - 1].l.Objs();
  }

  lemma FrameRepaired(H: HashFn, target: Shape, up: seq<Frame>, f: Frame, t: Shape, rest: seq<Node>)
    requires target.Canonical() && target.Distinct() && Plug(up, Fork(f.o, f.l, t)) == target
    requires Hangs(H, f.o, f.l, t) && Fork(f.o, f.l, t).Canonical()
    requires FramesLinked(H, up) && RightLinks(up, f.o) && Visits(rest, up, f.o)
    requires f.o.size == f.l.o.size + t.o.size + 1 && f.o.height == Max(f.l.o.height, t.o.height) + 1
    ensures Repairing(H, target, up, Fork(f.o, f.l, t), rest)
  {
    hide Visits, Plug, FramesLinked, RightLinks, Hangs, Shape.Linked, Shape.Canonical, Shape.Distinct;
    HangsLinked(H, f.o, f.l, t);
  }

  lemma StartRetract(H: HashFn, t: Shape, index: nat, it: nat, h: nat, cur: Node)
    requires WalkAt(H, t, index, it, h, cur) && t.Distinct()
    ensures RetractAt(H, t.Retract(cur, index), [], t, index, it, h, cur, [])
  {
    hide Heading, Cursor, Shape.Linked, Shape.Canonical, Shape.Distinct;
    WalkLinked(H, t, index, it, h, cur);
  }
}
