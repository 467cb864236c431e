/**
 Past paths: how the three lists that past_path records on its way down add up to the audit path of the smaller tree.
 */
module MerklePast {
  import opened Sequences
  import opened Rfc6962
  import opened MerkleNode
  import opened MerkleShape
  import opened MerkleTrace
  import opened MerkleWalk

  /** The root of the leaves up to and including a. */
  ghost function RootUpTo(H: HashFn, t: Shape, a: nat): Hash
    requires t.Canonical()
    decreases t
  {
    if !t.Fork? then t.Root(H)
    else if a < t.l.Count() then RootUpTo(H, t.l, a)
    else H(t.l.Root(H), RootUpTo(H, t.r, a - t.l.Count()))
  }

  ghost predicate InTree(t: Shape, i: nat) {
    t.Canonical() && !t.Pruned? && t.Flushed() <= i < t.Count()
  }

  lemma {:induction false} RootUpToIsTreeHash(H: HashFn, t: Shape, a: nat)
    requires InTree(t, a)
    ensures RootUpTo(H, t, a) == TreeHash(H, t.Content()[..a + 1])
  {
    if t.Fork? {
      Counts(t.l);
      Counts(t.r);
      hide TreeHash, RootUpTo, Shape.Perfect, Shape.Size, Shape.Height, Shape.LeafObjs;
      if a < t.l.Count() {
        RootUpToIsTreeHash(H, t.l, a);
      } else {
        RootUpToIsTreeHash(H, t.r, a - t.l.Count());
      }
      RootUpToFork(H, t, a);
    }
  }

  lemma RootUpToFork(H: HashFn, t: Shape, a: nat)
    requires InTree(t, a) && t.Fork?
    requires a < t.l.Count() ==> RootUpTo(H, t.l, a) == TreeHash(H, t.l.Content()[..a + 1])
    requires a >= t.l.Count() ==>
      RootUpTo(H, t.r, a - t.l.Count()) == TreeHash(H, t.r.Content()[..a - t.l.Count() + 1])
    ensures RootUpTo(H, t, a) == TreeHash(H, t.Content()[..a + 1])
  {
    hide TreeHash, Shape.Root;
    var c, d := t.l.Content(), t.r.Content();
    PrefixOfConcat(c, d, a + 1);
    if a >= |c| {
      RootIsTreeHash(H, t.l);
      TreeHashBranches(H, c, d[..a - |c| + 1], t.l.Height() - 1);
    }
  }

  /** The audit path of leaf i when a was the last leaf. */
  ghost function PastElements(H: HashFn, t: Shape, i: nat, a: nat): seq<Element>
    requires InTree(t, a) && i <= a
  {
    AuditPath(H, i, t.Content()[..a + 1])
  }

  /** Both leaves on the right: the left subtree joins as it is. */
  lemma PastRight(H: HashFn, t: Shape, i: nat, a: nat)
    requires InTree(t, a) && t.Fork? && t.l.Count() <= i <= a
    ensures InTree(t.r, a - t.l.Count())
    ensures PastElements(H, t, i, a) ==
            PastElements(H, t.r, i - t.l.Count(), a - t.l.Count()) + [Element(t.l.Root(H), PathLeft)]
  {
    hide AuditPath, TreeHash, Shape.Root;
    var c, d := t.l.Content(), t.r.Content();
    Counts(t.l);
    Counts(t.r);
    PrefixOfConcat(c, d, a + 1);
    RootIsTreeHash(H, t.l);
    AuditPathBranches(H, i, c, d[..a - |c| + 1], t.l.Height() - 1);
  }

  /** Both leaves on the left: the right subtree is younger than a and does not count. */
  lemma PastLeft(H: HashFn, t: Shape, i: nat, a: nat)
    requires InTree(t, a) && t.Fork? && i <= a < t.l.Count()
    ensures InTree(t.l, a)
    ensures PastElements(H, t, i, a) == PastElements(H, t.l, i, a)
  {
    hide AuditPath, TreeHash, Shape.Root;
    Counts(t.l);
    Counts(t.r);
    PrefixOfConcat(t.l.Content(), t.r.Content(), a + 1);
  }

  /** The fork: the left subtree is complete, the right one counts up to a. */
  lemma PastFork(H: HashFn, t: Shape, i: nat, a: nat)
    requires InTree(t, i) && InTree(t, a) && t.Fork? && i < t.l.Count() <= a
    ensures InTree(t.l, i) && InTree(t.r, a - t.l.Count())
    ensures PastElements(H, t, i, a) ==
            ElementsTo(H, t.l, i) + [Element(RootUpTo(H, t.r, a - t.l.Count()), PathRight)]
  {
    hide AuditPath, TreeHash, Shape.Root, RootUpTo, ElementsTo;
    var c, d := t.l.Content(), t.r.Content();
    Counts(t.l);
    Counts(t.r);
    PrefixOfConcat(c, d, a + 1);
    AuditPathBranches(H, i, c, d[..a - |c| + 1], t.l.Height() - 1);
    RootUpToIsTreeHash(H, t.r, a - |c|);
    ElementsAreAuditPath(H, t.l, i);
  }

  /** Hashes joined from the left, the outermost first. */
  ghost function FoldDown(H: HashFn, es: seq<Element>, h: Hash): Hash {
    if es == [] then h else H(es[0].hash, FoldDown(H, es[1..], h))
  }

  lemma {:induction false} FoldDownSnoc(H: HashFn, es: seq<Element>, e: Element, h: Hash)
    ensures FoldDown(H, es + [e], h) == FoldDown(H, es, H(e.hash, h))
  {
    if es != [] {
      assert (es + [e])[1..] == es[1..] + [e];
      FoldDownSnoc(H, es[1..], e, h);
    }
  }

  /** Above the fork: the rest of the path lies in t, followed by the recorded elements in reverse. */
  ghost predicate BeforeFork(H: HashFn, path: seq<Element>, t: Shape, i: nat, a: nat, rootToFork: seq<Element>) {
    InTree(t, i) && InTree(t, a) && i <= a
    && path == PastElements(H, t, i, a) + Reverse(rootToFork)
  }

  /**
   Below the fork: the path to i through tI, whose first recorded element is dropped, then the hash of what lies
   between the fork and a, then the elements above the fork.
   */
  ghost predicate AfterFork(H: HashFn, path: seq<Element>, tI: Shape, i: nat, tA: Shape, a: nat,
                            rootToFork: seq<Element>, forkToIndex: seq<Element>, forkToAsOf: seq<Element>) {
    && InTree(tI, i) && InTree(tA, a) && forkToIndex != [] && forkToAsOf != []
    && path ==
       ElementsTo(H, tI, i) + Reverse(forkToIndex[1..])
       + [Element(FoldDown(H, forkToAsOf[1..], RootUpTo(H, tA, a)), PathRight)] + Reverse(rootToFork)
  }

  lemma StepBoth(H: HashFn, path: seq<Element>, t: Shape, i: nat, a: nat, rootToFork: seq<Element>)
    requires BeforeFork(H, path, t, i, a, rootToFork) && t.Fork?
    ensures i >= t.l.Count() ==>
      BeforeFork(H, path, t.r, i - t.l.Count(), a - t.l.Count(), rootToFork + [Element(t.l.Root(H), PathLeft)])
    ensures a < t.l.Count() ==> BeforeFork(H, path, t.l, i, a, rootToFork)
  {
    hide AuditPath, TreeHash, Shape.Root, Reverse, PastElements;
    Counts(t.l);
    Counts(t.r);
    if i >= t.l.Count() {
      var e := Element(t.l.Root(H), PathLeft);
      PastRight(H, t, i, a);
      ReverseSnoc(rootToFork, e);
    } else if a < t.l.Count() {
      PastLeft(H, t, i, a);
    }
  }

  lemma StepFork(H: HashFn, path: seq<Element>, t: Shape, i: nat, a: nat, rootToFork: seq<Element>,
                 eI: Element, eA: Element)
    requires BeforeFork(H, path, t, i, a, rootToFork) && t.Fork? && i < t.l.Count() <= a
    ensures AfterFork(H, path, t.l, i, t.r, a - t.l.Count(), rootToFork, [eI], [eA])
  {
    PastFork(H, t, i, a);
  }

  lemma StepIndex(H: HashFn, path: seq<Element>, tI: Shape, i: nat, tA: Shape, a: nat,
                  rootToFork: seq<Element>, forkToIndex: seq<Element>, forkToAsOf: seq<Element>)
    requires AfterFork(H, path, tI, i, tA, a, rootToFork, forkToIndex, forkToAsOf) && tI.Fork?
    ensures var right := i >= tI.l.Count();
      var e := if right then Element(tI.l.Root(H), PathLeft) else Element(tI.r.Root(H), PathRight);
      AfterFork(H, path, if right then tI.r else tI.l, if right then i - tI.l.Count() else i, tA, a,
                rootToFork, forkToIndex + [e], forkToAsOf)
  {
    hide Shape.Root, Shape.Height, Shape.Perfect, Shape.Size, Reverse, RootUpTo, FoldDown;
    Counts(tI.l);
    Counts(tI.r);
    var right := i >= tI.l.Count();
    var e := if right then Element(tI.l.Root(H), PathLeft) else Element(tI.r.Root(H), PathRight);
    ReverseSnoc(forkToIndex[1..], e);
    assert (forkToIndex + [e])[1..] == forkToIndex[1..] + [e];
  }

  lemma StepAsOf(H: HashFn, path: seq<Element>, tI: Shape, i: nat, tA: Shape, a: nat,
                 rootToFork: seq<Element>, forkToIndex: seq<Element>, forkToAsOf: seq<Element>)
    requires AfterFork(H, path, tI, i, tA, a, rootToFork, forkToIndex, forkToAsOf) && tA.Fork?
    ensures if a >= tA.l.Count() then
              AfterFork(H, path, tI, i, tA.r, a - tA.l.Count(), rootToFork, forkToIndex,
                        forkToAsOf + [Element(tA.l.Root(H), PathLeft)])
            else AfterFork(H, path, tI, i, tA.l, a, rootToFork, forkToIndex, forkToAsOf)
  {
    hide Shape.Root, Reverse, ElementsTo, FoldDown;
    Counts(tA.l);
    Counts(tA.r);
    if a >= tA.l.Count() {
      var e := Element(tA.l.Root(H), PathLeft);
      FoldDownSnoc(H, forkToAsOf[1..], e, RootUpTo(H, tA.r, a - tA.l.Count()));
      assert (forkToAsOf + [e])[1..] == forkToAsOf[1..] + [e];
    }
  }

  lemma EndWithoutFork(H: HashFn, path: seq<Element>, t: Shape, i: nat, a: nat, rootToFork: seq<Element>)
    requires BeforeFork(H, path, t, i, a, rootToFork) && t.Leaf?
    ensures path == Reverse(rootToFork)
  {
    assert t.Content()[..a + 1] == t.Content();
  }

  lemma EndBelowFork(H: HashFn, path: seq<Element>, tI: Shape, i: nat, tA: Shape, a: nat,
                     rootToFork: seq<Element>, forkToIndex: seq<Element>, forkToAsOf: seq<Element>)
    requires AfterFork(H, path, tI, i, tA, a, rootToFork, forkToIndex, forkToAsOf) && tI.Leaf? && tA.Leaf?
    ensures forkToIndex != [] && forkToAsOf != []
    ensures path ==
            Reverse(forkToIndex[1..]) + [Element(FoldDown(H, forkToAsOf[1..], tA.h), PathRight)] + Reverse(rootToFork)
  {}

  /** One round of the loop above the fork. */
  lemma RoundTogether(H: HashFn, path: seq<Element>, t: Shape, i: nat, a: nat, itI: nat, itA: nat, h: nat, cur: Node,
                      rootToFork: seq<Element>)
    requires WalkAt(H, t, i, itI, h, cur) && WalkAt(H, t, a, itA, h, cur) && h >= 2
    requires BeforeFork(H, path, t, i, a, rootToFork) && i <= a && TopBit(itI) == TopBit(itA)
    ensures cur.height == h ==>
      var right := TopBit(itI);
      && cur.left != null && cur.right != null
      && WalkAt(H, Next(t, right), NextRel(t, i, right), ShiftLeft64(itI, 1), h - 1,
                if right then cur.right else cur.left)
      && WalkAt(H, Next(t, right), NextRel(t, a, right), ShiftLeft64(itA, 1), h - 1,
                if right then cur.right else cur.left)
      && NextRel(t, i, right) <= NextRel(t, a, right)
      && BeforeFork(H, path, Next(t, right), NextRel(t, i, right), NextRel(t, a, right),
                    if right then rootToFork + [Element(cur.left.hash, PathLeft)] else rootToFork)
    ensures cur.height != h ==>
      WalkAt(H, t, i, ShiftLeft64(itI, 1), h - 1, cur) && WalkAt(H, t, a, ShiftLeft64(itA, 1), h - 1, cur)
  {
    hide WalkAt, ShiftLeft64, TopBit, BeforeFork;
    WalkRound(H, t, i, itI, h, cur);
    WalkRound(H, t, a, itA, h, cur);
    if cur.height == h {
      StepBoth(H, path, t, i, a, rootToFork);
    }
  }

  /** The round at the fork. */
  lemma RoundFork(H: HashFn, path: seq<Element>, t: Shape, i: nat, a: nat, itI: nat, itA: nat, h: nat, cur: Node,
                  rootToFork: seq<Element>)
    requires WalkAt(H, t, i, itI, h, cur) && WalkAt(H, t, a, itA, h, cur) && h >= 2
    requires BeforeFork(H, path, t, i, a, rootToFork) && i <= a && TopBit(itI) != TopBit(itA)
    ensures cur.left != null && cur.right != null
    ensures WalkAt(H, Next(t, false), NextRel(t, i, false), ShiftLeft64(itI, 1), h - 1, cur.left)
    ensures WalkAt(H, Next(t, true), NextRel(t, a, true), ShiftLeft64(itA, 1), h - 1, cur.right)
    ensures AfterFork(H, path, Next(t, false), NextRel(t, i, false), Next(t, true), NextRel(t, a, true), rootToFork,
                      [Element(cur.right.hash, PathRight)], [Element(cur.left.hash, PathLeft)])
  {
    hide WalkAt, ShiftLeft64, TopBit, BeforeFork, AfterFork;
    WalkRound(H, t, i, itI, h, cur);
    WalkRound(H, t, a, itA, h, cur);
    StepFork(H, path, t, i, a, rootToFork, Element(t.r.o.hash, PathRight), Element(t.l.o.hash, PathLeft));
  }

  /** A round below the fork, for the walker to the index. */
  lemma RoundIndex(H: HashFn, path: seq<Element>, tI: Shape, i: nat, itI: nat, h: nat, curI: Node, tA: Shape, a: nat,
                   rootToFork: seq<Element>, forkToIndex: seq<Element>, forkToAsOf: seq<Element>)
    requires WalkAt(H, tI, i, itI, h, curI) && h >= 2
    requires AfterFork(H, path, tI, i, tA, a, rootToFork, forkToIndex, forkToAsOf)
    ensures curI.height == h ==>
      var right := TopBit(itI);
      && curI.left != null && curI.right != null
      && WalkAt(H, Next(tI, right), NextRel(tI, i, right), ShiftLeft64(itI, 1), h - 1,
                if right then curI.right else curI.left)
      && AfterFork(H, path, Next(tI, right), NextRel(tI, i, right), tA, a, rootToFork,
                   forkToIndex
                   + [if right then Element(curI.left.hash, PathLeft) else Element(curI.right.hash, PathRight)],
                   forkToAsOf)
    ensures curI.height != h ==> WalkAt(H, tI, i, ShiftLeft64(itI, 1), h - 1, curI)
  {
    hide WalkAt, ShiftLeft64, TopBit, AfterFork;
    WalkRound(H, tI, i, itI, h, curI);
    if curI.height == h {
      StepIndex(H, path, tI, i, tA, a, rootToFork, forkToIndex, forkToAsOf);
    }
  }

  /** A round below the fork, for the walker to the past last leaf. */
  lemma RoundAsOf(H: HashFn, path: seq<Element>, tI: Shape, i: nat, tA: Shape, a: nat, itA: nat, h: nat, curA: Node,
                  rootToFork: seq<Element>, forkToIndex: seq<Element>, forkToAsOf: seq<Element>)
    requires WalkAt(H, tA, a, itA, h, curA) && h >= 2
    requires AfterFork(H, path, tI, i, tA, a, rootToFork, forkToIndex, forkToAsOf)
    ensures curA.height == h ==>
      var right := TopBit(itA);
      && curA.left != null && curA.right != null
      && WalkAt(H, Next(tA, right), NextRel(tA, a, right), ShiftLeft64(itA, 1), h - 1,
                if right then curA.right else curA.left)
      && AfterFork(H, path, tI, i, Next(tA, right), NextRel(tA, a, right), rootToFork, forkToIndex,
                   if right then forkToAsOf + [Element(curA.left.hash, PathLeft)] else forkToAsOf)
    ensures curA.height != h ==> WalkAt(H, tA, a, ShiftLeft64(itA, 1), h - 1, curA)
  {
    hide WalkAt, ShiftLeft64, TopBit, AfterFork;
    WalkRound(H, tA, a, itA, h, curA);
    if curA.height == h {
      StepAsOf(H, path, tI, i, tA, a, rootToFork, forkToIndex, forkToAsOf);
    }
  }

  /** The state of the two walkers: together above the fork, apart below it. */
  ghost predicate Walkers(H: HashFn, path: seq<Element>, forked: bool, h: nat,
                          tI: Shape, i: nat, itI: nat, curI: Node, tA: Shape, a: nat, itA: nat, curA: Node,
                          rootToFork: seq<Element>, forkToIndex: seq<Element>, forkToAsOf: seq<Element>)
    reads tI.Objs(), tA.Objs()
  {
    && WalkAt(H, tI, i, itI, h, curI) && WalkAt(H, tA, a, itA, h, curA)
    && if forked then AfterFork(H, path, tI, i, tA, a, rootToFork, forkToIndex, forkToAsOf)
       else
         && tI == tA && curI == curA && i <= a && forkToIndex == [] && forkToAsOf == []
         && BeforeFork(H, path, tI, i, a, rootToFork)
  }

  /** What the lists say once both walkers have arrived. */
  ghost predicate Recorded(H: HashFn, path: seq<Element>, forked: bool, asOfLeaf: Hash,
                           rootToFork: seq<Element>, forkToIndex: seq<Element>, forkToAsOf: seq<Element>) {
    if forked then
      && forkToIndex != [] && forkToAsOf != []
      && path == Reverse(forkToIndex[1..]) + [Element(FoldDown(H, forkToAsOf[1..], asOfLeaf), PathRight)]
                 + Reverse(rootToFork)
    else path == Reverse(rootToFork)
  }

  lemma WalkersArrived(H: HashFn, path: seq<Element>, forked: bool,
                       tI: Shape, i: nat, itI: nat, curI: Node, tA: Shape, a: nat, itA: nat, curA: Node,
                       rootToFork: seq<Element>, forkToIndex: seq<Element>, forkToAsOf: seq<Element>)
    requires Walkers(H, path, forked, 1, tI, i, itI, curI, tA, a, itA, curA, rootToFork, forkToIndex, forkToAsOf)
    ensures Recorded(H, path, forked, curA.hash, rootToFork, forkToIndex, forkToAsOf)
  {
    hide WalkAt, BeforeFork, AfterFork;
    WalkEnd(H, tI, i, itI, curI);
    WalkEnd(H, tA, a, itA, curA);
    if forked {
      EndBelowFork(H, path, tI, i, tA, a, rootToFork, forkToIndex, forkToAsOf);
    } else {
      EndWithoutFork(H, path, tI, i, a, rootToFork);
    }
  }
}
