/** Flushing: cutting off the children of every subtree that lies to the left of the way to a leaf. */
module MerkleFlush {
  import opened Bytes
  import opened Rfc6962
  import opened MerkleNode
  import opened MerkleShape
  import opened MerkleLocal
  import opened MerkleWalk
  import opened MerklePast

  /** The roots of the subtrees that flushing to leaf i cuts. */
  ghost function CutObjs(t: Shape, i: nat): (objs: set<Node>)
    ensures objs <= t.Objs()
  {
    if !t.Fork? then {}
    else if i < t.l.Count() then CutObjs(t.l, i)
    else {TopObj(t.l)} + CutObjs(t.r, i - t.l.Count())
  }

  ghost function TopObj(t: Shape): (o: Node)
    ensures o == t.o && o in t.Objs()
  {
    t.o
  }

  /** A node that has lost its children but keeps its hash, size and height. */
  ghost predicate Severed(H: HashFn, t: Shape)
    reads t.o
  {
    && t.Canonical() && t.o.size == t.Size() && t.o.height == t.Height()
    && t.o.left == null && t.o.right == null && !t.o.dirty && t.o.hash == t.Root(H)
  }

  /** Every node of t is right on its own, except that the cut ones are severed. */
  ghost predicate CutTree(H: HashFn, t: Shape, cuts: set<Node>)
    reads t.Objs()
  {
    forall s :: s in Subs(t) ==>
      && s.o in s.Objs()
      && if s.o in cuts then Severed(H, s) else s.Objs() <= t.Objs() && NodeOk(H, s)
  }

  lemma CutTreeParts(H: HashFn, t: Shape, cuts: set<Node>)
    requires t.Fork? && CutTree(H, t, cuts)
    ensures CutTree(H, t.l, cuts) && CutTree(H, t.r, cuts)
    ensures if t.o in cuts then Severed(H, t) else NodeOk(H, t)
  {
    SubsOfSub(t.l, t);
    SubsOfSub(t.r, t);
  }

  lemma UncutLinked(H: HashFn, t: Shape, cuts: set<Node>)
    requires CutTree(H, t, cuts) && cuts !! t.Objs()
    ensures t.Canonical() && t.Linked(H)
  {
    forall s | s in Subs(t)
      ensures NodeOk(H, s)
    {
    }
    NodesLinked(H, t);
  }

  lemma SeveredCut(H: HashFn, t: Shape)
    requires Severed(H, t) && t.Perfect()
    ensures t.Cut().Canonical() && t.Cut().Linked(H)
  {
    hide TreeHash, Pow2;
    Counts(t);
    RootIsTreeHash(H, t);
  }

  /** A fork whose subtrees are replaced by ones that look the same from above stays linked. */
  lemma ForkLinked(H: HashFn, t: Shape, l: Shape, r: Shape)
    requires t.Fork? && NodeOk(H, t) && !t.o.dirty && Fork(t.o, l, r).Canonical()
    requires l.Linked(H) && l.o == t.l.o && l.Root(H) == t.l.Root(H)
    requires l.Size() == t.l.Size() && l.Height() == t.l.Height()
    requires r.Linked(H) && r.o == t.r.o && r.Root(H) == t.r.Root(H)
    requires r.Size() == t.r.Size() && r.Height() == t.r.Height()
    ensures Fork(t.o, l, r).Linked(H)
  {}

  /** The left case of the next lemma: only the left subtree changes. */
  lemma FlushLinkedLeft(H: HashFn, t: Shape, i: nat, cuts: set<Node>)
    requires InTree(t, i) && t.Fork? && i < t.l.Count() && t.Distinct() && CutTree(H, t, cuts) && !t.o.dirty
    requires cuts * t.Objs() == CutObjs(t, i)
    requires t.l.Flush(i).Canonical() && t.l.Flush(i).Linked(H)
    ensures t.Flush(i).Canonical() && t.Flush(i).Linked(H)
  {
    FlushCanonical(t, i);
    CutsLeft(t, i, cuts);
    hide Shape.Canonical, Shape.Linked, Shape.Root, Shape.Size, Shape.Height, CutTree, Severed;
    Branch(t, i);
    CutTreeParts(H, t, cuts);
    UncutLinked(H, t.r, cuts);
    FlushRoot(H, t.l, i);
    FlushCanonical(t.l, i);
    ForkLinked(H, t, t.l.Flush(i), t.r);
  }

  lemma CutsLeft(t: Shape, i: nat, cuts: set<Node>)
    requires t.Fork? && i < t.l.Count() && t.Distinct() && cuts * t.Objs() == CutObjs(t, i)
    ensures t.o !in cuts && cuts !! t.r.Objs() && cuts * t.l.Objs() == CutObjs(t.l, i)
  {
    assert t.o in t.Objs() && t.r.Objs() <= t.Objs() && t.l.Objs() <= t.Objs();
  }

  /** The right case: the left subtree is severed and the right one changes. */
  lemma FlushLinkedRight(H: HashFn, t: Shape, i: nat, cuts: set<Node>)
    requires InTree(t, i) && t.Fork? && i >= t.l.Count() && t.Distinct() && CutTree(H, t, cuts) && !t.o.dirty
    requires cuts * t.Objs() == CutObjs(t, i)
    requires t.r.Flush(i - t.l.Count()).Canonical() && t.r.Flush(i - t.l.Count()).Linked(H)
    ensures t.Flush(i).Canonical() && t.Flush(i).Linked(H)
  {
    hide *;
    var j := i - t.l.Count();
    FlushAtRight(t, i);
    CutsRight(t, i, cuts);
    Branch(t, i);
    CutTreeParts(H, t, cuts);
    SeveredTop(H, t.l, cuts);
    SeveredCut(H, t.l);
    FlushRoot(H, t.r, j);
    FlushCanonical(t.r, j);
    CutLooksSame(H, t.l);
    ForkLinked(H, t, t.l.Cut(), t.r.Flush(j));
  }

  lemma FlushAtRight(t: Shape, i: nat)
    requires InTree(t, i) && t.Fork? && i >= t.l.Count()
    ensures t.Flush(i) == Fork(t.o, t.l.Cut(), t.r.Flush(i - t.l.Count())) && t.Flush(i).Canonical()
  {
    hide Shape.Canonical, Shape.Content;
    FlushCanonical(t, i);
  }

  lemma CutsRight(t: Shape, i: nat, cuts: set<Node>)
    requires t.Fork? && i >= t.l.Count() && t.Distinct() && cuts * t.Objs() == CutObjs(t, i)
    ensures t.o !in cuts && t.l.o in cuts && cuts * t.r.Objs() == CutObjs(t.r, i - t.l.Count())
  {
    assert t.o in t.Objs() && t.r.Objs() <= t.Objs() && t.l.Objs() <= t.Objs();
    assert TopObj(t.l) in CutObjs(t, i);
  }

  /** Once all the subtrees left of leaf i are cut, the heap is linked as the flushed tree. */
  lemma {:induction false} FlushLinked(H: HashFn, t: Shape, i: nat, cuts: set<Node>)
    requires InTree(t, i) && t.Distinct() && CutTree(H, t, cuts) && !t.o.dirty
    requires cuts * t.Objs() == CutObjs(t, i)
    ensures t.Flush(i).Canonical() && t.Flush(i).Linked(H)
  {
    hide Shape.Objs, Shape.Canonical, Shape.Linked, Shape.Flush, Subs, CutTree, CutObjs;
    if t.Fork? {
      Branch(t, i);
      CutTreeParts(H, t, cuts);
      if i < t.l.Count() {
        CutsLeft(t, i, cuts);
        FlushLinked(H, t.l, i, cuts);
        FlushLinkedLeft(H, t, i, cuts);
      } else {
        CutsRight(t, i, cuts);
        FlushLinked(H, t.r, i - t.l.Count(), cuts);
        FlushLinkedRight(H, t, i, cuts);
      }
    } else {
      FlushLinkedLeaf(H, t, i, cuts);
    }
  }

  lemma FlushLinkedLeaf(H: HashFn, t: Shape, i: nat, cuts: set<Node>)
    requires InTree(t, i) && !t.Fork? && CutTree(H, t, cuts) && cuts * t.Objs() == CutObjs(t, i)
    ensures t.Flush(i).Canonical() && t.Flush(i).Linked(H)
  {
    assert t.o in t.Objs();
    assert NodeOk(H, t);
  }

  lemma SeveredTop(H: HashFn, t: Shape, cuts: set<Node>)
    requires CutTree(H, t, cuts) && t.o in cuts
    ensures Severed(H, t)
  {}

  lemma CutLooksSame(H: HashFn, t: Shape)
    requires t.Canonical() && t.Cut().Canonical()
    ensures t.Cut().o == t.o && t.Cut().Root(H) == t.Root(H)
    ensures t.Cut().Size() == t.Size() && t.Cut().Height() == t.Height()
  {
    Counts(t);
    RootIsTreeHash(H, t);
  }

  /** The branch the way to leaf i takes is in the tree. */
  lemma Branch(t: Shape, i: nat)
    requires InTree(t, i) && t.Fork?
    ensures t.l.Canonical() && t.r.Canonical() && t.l.Perfect()
    ensures if i < t.l.Count() then InTree(t.l, i) else InTree(t.r, i - t.l.Count())
  {
    Counts(t.l);
    Counts(t.r);
  }

  /**
   A flushing walk: the cut nodes so far, the walk at the subtree s on the way to the leaf, and what is still to be
   cut below it.
   */
  ghost predicate FlushWalk(H: HashFn, t: Shape, index: nat, cuts: set<Node>, s: Shape, rel: nat, it: nat, h: nat,
                            cur: Node)
    reads t.Objs()
  {
    && TopObj(t) in t.Objs() && !t.o.dirty
    && CutTree(H, t, cuts) && s in Subs(t) && WalkAt(H, s, rel, it, h, cur)
    && cuts !! s.Objs() && CutObjs(t, index) == cuts + CutObjs(s, rel)
  }

  lemma SubDistinct(t: Shape, s: Shape)
    requires t.Distinct() && s in Subs(t)
    ensures s.Distinct()
  {
    if t.Fork? && s != t {
      if s in Subs(t.l) {
        SubDistinct(t.l, s);
      } else {
        SubDistinct(t.r, s);
      }
    }
  }

  /** What a round of the walk needs to know where it turns right. */
  lemma CutHere(H: HashFn, t: Shape, cuts: set<Node>, s: Shape)
    requires t.Distinct() && CutTree(H, t, cuts) && s in Subs(t) && s.Fork? && cuts !! s.Objs()
    requires s.Canonical() && s.Linked(H) && !s.o.dirty
    ensures s.Distinct() && s.l in Subs(t) && s.r in Subs(t) && s.l.o in t.Objs()
    ensures NodeOk(H, s.l) && !s.l.o.dirty && s.l.o.hash == s.l.Root(H)
    ensures s.l.o !in s.r.Objs() && s.l.o !in cuts && s.l.o != s.o
  {
    SubDistinct(t, s);
    CleanFork(H, s);
    assert s.l.o in s.l.Objs();
  }

  /** After the left child has lost its children, the walk goes on in the right one. */
  lemma CutDone(H: HashFn, t: Shape, index: nat, cuts: set<Node>, s: Shape, rel: nat, it: nat, h: nat)
    requires t.Distinct() && s in Subs(t) && s.Fork? && rel >= s.l.Count() && s.Distinct()
    requires cuts !! s.Objs() && CutObjs(t, index) == cuts + CutObjs(s, rel)
    requires CutTree(H, t, cuts + {s.l.o}) && !t.o.dirty
    requires s.r in Subs(t) && WalkAt(H, s.r, rel - s.l.Count(), it, h, s.r.o)
    ensures FlushWalk(H, t, index, cuts + {s.l.o}, s.r, rel - s.l.Count(), it, h, s.r.o)
  {
    assert TopObj(s.l) == s.l.o;
  }

  /** What a round of the flushing walk meets. Only a right turn cuts. */
  lemma FlushAhead(H: HashFn, t: Shape, index: nat, cuts: set<Node>, s: Shape, rel: nat, it: nat, h: nat, cur: Node)
    requires t.Distinct() && FlushWalk(H, t, index, cuts, s, rel, it, h, cur) && h >= 2
    ensures cur.height != h ==> FlushWalk(H, t, index, cuts, s, rel, ShiftLeft64(it, 1), h - 1, cur)
    ensures cur.height == h ==> s.Fork? && cur.left == s.l.o && cur.right == s.r.o && cur != s.l.o && !t.o.dirty
    ensures cur.height == h && !TopBit(it) ==>
      FlushWalk(H, t, index, cuts, Next(s, false), NextRel(s, rel, false), ShiftLeft64(it, 1), h - 1, s.l.o)
    ensures cur.height == h && TopBit(it) ==>
      && CutTree(H, t, cuts) && s in Subs(t) && s.l in Subs(t) && s.r in Subs(t) && s.Distinct()
      && NodeOk(H, s.l) && !s.l.o.dirty && s.l.o.hash == s.l.Root(H)
      && s.l.o in t.Objs() && s.l.o !in cuts && s.l.o !in s.r.Objs()
      && cuts !! s.Objs() && CutObjs(t, index) == cuts + CutObjs(s, rel) && rel >= s.l.Count()
      && WalkAt(H, s.r, rel - s.l.Count(), ShiftLeft64(it, 1), h - 1, s.r.o)
  {
    hide WalkAt, CutTree, ShiftLeft64, TopBit, Steps, Shape.Distinct, Shape.Linked, Shape.Canonical, Shape.Root, Subs;
    WalkRound(H, s, rel, it, h, cur);
    WalkLinked(H, s, rel, it, h, cur);
    if cur.height == h {
      CutHere(H, t, cuts, s);
    }
  }

  lemma WholeUncut(H: HashFn, t: Shape)
    requires t.Canonical() && t.Linked(H)
    ensures CutTree(H, t, {}) && t in Subs(t)
  {
    LinkedNodes(H, t);
    forall s | s in Subs(t)
      ensures s.o in s.Objs()
    {
    }
  }

  /** At the leaf everything to the left has been cut. */
  lemma FlushArrived(H: HashFn, t: Shape, index: nat, cuts: set<Node>, s: Shape, rel: nat, it: nat, cur: Node)
    requires FlushWalk(H, t, index, cuts, s, rel, it, 1, cur)
    requires InTree(t, index) && t.Distinct()
    ensures t.Flush(index).Canonical() && t.Flush(index).Linked(H)
  {
    WalkEnd(H, s, rel, it, cur);
    assert cuts * t.Objs() == CutObjs(t, index);
    FlushLinked(H, t, index, cuts);
  }
}
