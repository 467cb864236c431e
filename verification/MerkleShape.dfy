/**
 What the three restructuring operations do to a canonical tree: inserting a leaf, retracting to a leaf, flushing to
 a leaf. Each keeps the tree canonical and changes the list of leaves, and the list of leaf nodes, as the model says.
 */
module MerkleShape {
  import opened Sequences
  import opened Bytes
  import opened Rfc6962
  import opened MerkleNode

  /** The side on which leaf i lies, and what is flushed there. */
  lemma TurnFacts(t: Shape, i: nat)
    requires t.Canonical() && t.Fork? && t.Flushed() <= i < t.Count()
    ensures t.l.Canonical() && t.r.Canonical() && !t.r.Pruned?
    ensures t.Count() == t.l.Count() + t.r.Count() && t.Flushed() == t.l.Flushed() + t.r.Flushed()
    ensures |t.l.LeafObjs()| == t.l.Count() - t.l.Flushed() && |t.r.LeafObjs()| == t.r.Count() - t.r.Flushed()
    ensures i < t.l.Count() ==> !t.l.Pruned? && t.l.Flushed() <= i && t.r.Flushed() == 0
    ensures i >= t.l.Count() ==> t.r.Flushed() <= i - t.l.Count() < t.r.Count()
  {
    Counts(t.l);
    Counts(t.r);
    hide Shape.Perfect, Shape.Size, Shape.LeafObjs;
  }

  // ---------- insertion

  lemma {:induction false} InsertCanonical(t: Shape, nw: Node, x: Node, h: Hash)
    requires t.Canonical() && !t.Pruned?
    ensures var t' := t.Insert(nw, Leaf(x, h));
      && t'.Canonical() && !t'.Pruned?
      && t'.Content() == t.Content() + [h]
      && t'.Flushed() == t.Flushed()
  {
    hide Max, Shape.LeafObjs, Shape.Size;
    Bounds(t);
    if t.Fork? && !t.Perfect() {
      InsertCanonical(t.r, nw, x, h);
      RoomOnTheRight(t);
      ConcatAssociates(t.l.Content(), t.r.Content(), [h]);
      hide Shape.Perfect, Pow2;
    }
  }

  /** In a fork that is not full, the right subtree can take a leaf. */
  lemma RoomOnTheRight(t: Shape)
    requires t.Canonical() && t.Fork? && !t.Perfect()
    ensures t.r.Count() < t.l.Count()
  {
    Bounds(t);
  }

  lemma {:induction false} InsertObjs(t: Shape, nw: Node, x: Node, h: Hash)
    ensures var t' := t.Insert(nw, Leaf(x, h));
      && t'.LeafObjs() == t.LeafObjs() + [x]
      && t'.Objs() == t.Objs() + {nw, x}
  {
    if t.Fork? && !t.Perfect() {
      hide Shape.Perfect;
      InsertObjs(t.r, nw, x, h);
      assert t.l.LeafObjs() + (t.r.LeafObjs() + [x]) == t.LeafObjs() + [x];
    }
  }

  lemma {:induction false} InsertDistinct(t: Shape, nw: Node, x: Node, h: Hash)
    requires t.Canonical() && !t.Pruned? && t.Distinct()
    requires nw !in t.Objs() && x !in t.Objs() && nw != x
    ensures t.Insert(nw, Leaf(x, h)).Distinct()
  {
    if t.Fork? && !t.Perfect() {
      InsertDistinct(t.r, nw, x, h);
      InsertObjs(t.r, nw, x, h);
    }
  }

  // ---------- retracting

  lemma {:induction false} RetractCanonical(t: Shape, top: Node, i: nat)
    requires t.Canonical() && !t.Pruned? && t.Flushed() <= i < t.Count()
    ensures var t' := t.Retract(top, i);
      && t'.Canonical() && !t'.Pruned? && t'.o == top
      && t'.Content() == t.Content()[..i + 1]
      && t'.Flushed() == t.Flushed()
  {
    hide Pow2, Max;
    if t.Fork? {
      Counts(t.l);
      Counts(t.r);
      if i < t.l.Count() {
        RetractCanonical(t.l, top, i);
      } else {
        RetractCanonical(t.r, t.r.o, i - t.l.Count());
      }
      PrefixOfConcat(t.l.Content(), t.r.Content(), i + 1);
    }
  }

  lemma {:induction false} RetractObjs(t: Shape, top: Node, i: nat)
    requires t.Canonical() && !t.Pruned? && t.Flushed() <= i < t.Count()
    requires t.Distinct() && (top == t.o || top !in t.Objs())
    ensures var t' := t.Retract(top, i);
      t'.Distinct() && t'.Objs() <= t.Objs() + {top}
  {
    if t.Fork? {
      TurnFacts(t, i);
      hide Shape.Canonical, Shape.Flushed, Shape.Content, Shape.Count;
      if i < t.l.Count() {
        RetractObjs(t.l, top, i);
      } else {
        RetractObjs(t.r, t.r.o, i - t.l.Count());
      }
    }
  }

  /** Retracting keeps the leaf nodes before index i; the node of leaf i may move. */
  lemma {:induction false} RetractLeafObjs(t: Shape, top: Node, i: nat)
    requires t.Canonical() && !t.Pruned? && t.Flushed() <= i < t.Count()
    ensures var t' := t.Retract(top, i);
      && i - t.Flushed() < |t.LeafObjs()|
      && t'.LeafObjs() == t.LeafObjs()[..i - t.Flushed()] + [t'.LastLeaf()]
  {
    Counts(t);
    if t.Fork? {
      hide *;
      TurnFacts(t, i);
      RetractTurn(t, top, i);
      PrefixOfConcat(t.l.LeafObjs(), t.r.LeafObjs(), i - t.Flushed());
      if i < t.l.Count() {
        RetractLeafObjs(t.l, top, i);
      } else {
        var j := i - t.l.Count();
        RetractLeafObjs(t.r, t.r.o, j);
        ConcatAssociates(t.l.LeafObjs(), t.r.LeafObjs()[..j - t.r.Flushed()], [t.Retract(top, i).LastLeaf()]);
      }
    }
  }

  /** The leaf nodes that one turn of the way to leaf i leaves in place. */
  lemma RetractTurn(t: Shape, top: Node, i: nat)
    requires t.Fork?
    ensures t.LeafObjs() == t.l.LeafObjs() + t.r.LeafObjs()
    ensures i < t.l.Count() ==> t.Retract(top, i) == t.l.Retract(top, i)
    ensures i >= t.l.Count() ==>
      var t', r' := t.Retract(top, i), t.r.Retract(t.r.o, i - t.l.Count());
      t'.LastLeaf() == r'.LastLeaf() && t'.LeafObjs() == t.l.LeafObjs() + r'.LeafObjs()
  {
    hide Shape.Content;
  }

  // ---------- flushing

  lemma {:induction false} FlushCanonical(t: Shape, i: nat)
    requires t.Canonical() && !t.Pruned? && t.Flushed() <= i < t.Count()
    ensures var t' := t.Flush(i);
      && t'.Canonical() && !t'.Pruned? && t'.o == t.o
      && t'.Content() == t.Content() && t'.Height() == t.Height()
      && t'.Flushed() == i
  {
    hide Pow2, Max;
    if t.Fork? {
      Counts(t.l);
      Counts(t.r);
      Bounds(t.l);
      if i < t.l.Count() {
        FlushCanonical(t.l, i);
      } else {
        FlushCanonical(t.r, i - t.l.Count());
      }
    }
  }

  /** Flushing changes neither the root hash nor the abstract size. */
  lemma FlushRoot(H: HashFn, t: Shape, i: nat)
    requires t.Canonical() && !t.Pruned? && t.Flushed() <= i < t.Count()
    ensures t.Flush(i).Canonical()
    ensures t.Flush(i).Root(H) == t.Root(H) && t.Flush(i).Size() == t.Size()
  {
    FlushCanonical(t, i);
    RootIsTreeHash(H, t);
    RootIsTreeHash(H, t.Flush(i));
    Counts(t);
    Counts(t.Flush(i));
  }

  lemma {:induction false} FlushObjs(t: Shape, i: nat)
    requires t.Canonical() && !t.Pruned? && t.Flushed() <= i < t.Count() && t.Distinct()
    ensures t.Flush(i).Distinct() && t.Flush(i).Objs() <= t.Objs()
  {
    if t.Fork? {
      TurnFacts(t, i);
      hide Shape.Canonical, Shape.Flushed, Shape.Content, Shape.Count;
      if i < t.l.Count() {
        FlushObjs(t.l, i);
      } else {
        FlushObjs(t.r, i - t.l.Count());
      }
    }
  }

  /** Flushing drops the leaf nodes before index i and no other. */
  lemma {:induction false} FlushLeafObjs(t: Shape, i: nat)
    requires t.Canonical() && !t.Pruned? && t.Flushed() <= i < t.Count()
    ensures i - t.Flushed() <= |t.LeafObjs()| && t.Flush(i).LeafObjs() == t.LeafObjs()[i - t.Flushed()..]
  {
    Counts(t);
    if t.Fork? {
      hide *;
      TurnFacts(t, i);
      FlushTurn(t, i);
      var lo, ro, m := t.l.LeafObjs(), t.r.LeafObjs(), i - t.Flushed();
      if i < t.l.Count() {
        FlushLeafObjs(t.l, i);
        SuffixOnTheLeft(lo, ro, m);
      } else {
        FlushLeafObjs(t.r, i - t.l.Count());
        SuffixOnTheRight(lo, ro, m);
      }
    }
  }

  lemma FlushTurn(t: Shape, i: nat)
    requires t.Fork?
    ensures t.LeafObjs() == t.l.LeafObjs() + t.r.LeafObjs()
    ensures t.Flush(i).LeafObjs() ==
            if i < t.l.Count() then t.l.Flush(i).LeafObjs() + t.r.LeafObjs()
            else t.r.Flush(i - t.l.Count()).LeafObjs()
  {
    hide Shape.Content;
  }

  // ---------- reading

  /** The nodes on the way from the root to leaf i, each with whether the way turns right there. */
  datatype Step = Step(n: Node, goRight: bool)

  ghost function Steps(t: Shape, i: nat): seq<Step> {
    if !t.Fork? then []
    else if i < t.l.Count() then [Step(t.o, false)] + Steps(t.l, i)
    else [Step(t.o, true)] + Steps(t.r, i - t.l.Count())
  }

  lemma NoSteps(t: Shape, i: nat)
    requires t.Leaf?
    ensures Steps(t, i) == []
  {}

  /** The elements found on the way to leaf i, the one nearest to the leaf first. */
  ghost function ElementsTo(H: HashFn, t: Shape, i: nat): seq<Element>
    requires t.Canonical()
    decreases t
  {
    if !t.Fork? then []
    else if i < t.l.Count() then ElementsTo(H, t.l, i) + [Element(t.r.Root(H), PathRight)]
    else ElementsTo(H, t.r, i - t.l.Count()) + [Element(t.l.Root(H), PathLeft)]
  }

  lemma ElementsOfFork(H: HashFn, t: Shape, i: nat)
    requires t.Canonical() && t.Fork?
    ensures ElementsTo(H, t, i) ==
            if i < t.l.Count() then ElementsTo(H, t.l, i) + [Element(t.r.Root(H), PathRight)]
            else ElementsTo(H, t.r, i - t.l.Count()) + [Element(t.l.Root(H), PathLeft)]
  {}

  lemma ForkElements(H: HashFn, t: Shape, i: nat)
    requires t.Canonical() && t.Fork? && i < t.Count()
    requires i < t.l.Count() ==> ElementsTo(H, t.l, i) == AuditPath(H, i, t.l.Content())
    requires i >= t.l.Count() ==>
      var j := i - t.l.Count();
      j < t.r.Count() && ElementsTo(H, t.r, j) == AuditPath(H, j, t.r.Content())
    ensures ElementsTo(H, t, i) == AuditPath(H, i, t.Content())
  {
    hide Shape.Canonical, Shape.Height, Shape.Root, TreeHash, AuditPath, Branches, ElementsTo;
    ForkBranches(t);
    RootIsTreeHash(H, t.l);
    RootIsTreeHash(H, t.r);
    ElementsOfFork(H, t, i);
    var c, d := t.l.Content(), t.r.Content();
    assert t.Content() == c + d;
    AuditPathBranches(H, i, c, d, t.l.Height() - 1);
  }

  /** They are the audit path of RFC 6962, although flushed subtrees keep only their root hash. */
  lemma {:induction false} ElementsAreAuditPath(H: HashFn, t: Shape, i: nat)
    requires t.Canonical() && !t.Pruned? && t.Flushed() <= i < t.Count()
    ensures ElementsTo(H, t, i) == AuditPath(H, i, t.Content())
  {
    if t.Fork? {
      TurnFacts(t, i);
      hide Shape.Canonical, Shape.Flushed, Shape.Count, TreeHash, AuditPath, ElementsTo;
      if i < t.l.Count() {
        ElementsAreAuditPath(H, t.l, i);
      } else {
        ElementsAreAuditPath(H, t.r, i - t.l.Count());
      }
      ForkElements(H, t, i);
    }
  }
}
