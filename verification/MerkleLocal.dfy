/**
 The node-by-node view of a linked tree: a tree is linked exactly when each of its nodes is right on its own. Code that
 changes single nodes in the middle of a tree is verified in this view.
 */
module MerkleLocal {
  import opened Rfc6962
  import opened MerkleNode

  /** The subtrees of a tree, itself included. */
  ghost function Subs(t: Shape): (subs: set<Shape>)
    ensures t in subs
    ensures forall s :: s in subs ==> s.Objs() <= t.Objs()
    ensures forall s :: s in subs && s.Fork? ==> s.l in subs && s.r in subs
  {
    if t.Fork? then {t} + Subs(t.l) + Subs(t.r) else {t}
  }

  /** The root node of t is right on its own, given its children. */
  ghost predicate NodeOk(H: HashFn, t: Shape)
    reads t.o, if t.Fork? then {t.l.o, t.r.o} else {}
  {
    && t.Canonical() && t.o.size == t.Size() && t.o.height == t.Height()
    && if t.Fork? then
         && t.o.left == t.l.o && t.o.right == t.r.o
         && (!t.o.dirty ==> !t.l.o.dirty && !t.r.o.dirty && t.o.hash == t.Root(H))
       else
         t.o.left == null && t.o.right == null && !t.o.dirty && t.o.hash == t.Root(H)
  }

  lemma {:induction false} LinkedNodes(H: HashFn, t: Shape)
    requires t.Canonical() && t.Linked(H)
    ensures forall s :: s in Subs(t) ==> NodeOk(H, s)
  {
    if t.Fork? {
      LinkedNodes(H, t.l);
      LinkedNodes(H, t.r);
    }
  }

  lemma {:induction false} NodesLinked(H: HashFn, t: Shape)
    requires forall s :: s in Subs(t) ==> NodeOk(H, s)
    ensures t.Canonical() && t.Linked(H)
  {
    assert NodeOk(H, t);
    if t.Fork? {
      NodesLinked(H, t.l);
      NodesLinked(H, t.r);
    }
  }

  /** A node object roots only one subtree. */
  lemma {:induction false} SubsUnique(t: Shape, s: Shape, s': Shape)
    requires t.Distinct() && s in Subs(t) && s' in Subs(t) && s.o == s'.o
    ensures s == s'
  {
    assert s.o in s.Objs() && s'.o in s'.Objs();
    if t.Fork? && s != t && s' != t {
      if s in Subs(t.l) && s' in Subs(t.l) {
        SubsUnique(t.l, s, s');
      } else if s in Subs(t.r) && s' in Subs(t.r) {
        SubsUnique(t.r, s, s');
      }
    }
  }

  lemma SubsDiffer(t: Shape, s: Shape, s': Shape)
    requires t.Distinct() && s in Subs(t) && s' in Subs(t) && s != s'
    ensures s.o != s'.o
  {
    if s.o == s'.o {
      SubsUnique(t, s, s');
    }
  }

  ghost function DirtyNodes(t: Shape): set<Node>
    reads t.Objs()
  {
    set n | n in t.Objs() && n.dirty
  }

  /** Below a clean node there are only clean nodes. */
  lemma {:induction false} CleanBelow(H: HashFn, t: Shape)
    requires t.Canonical() && t.Linked(H) && !t.o.dirty
    ensures DirtyNodes(t) == {}
    ensures t.o.hash == t.Root(H)
  {
    if t.Fork? {
      CleanBelow(H, t.l);
      CleanBelow(H, t.r);
    }
  }

  /** A dirty node is an inner node of lower subtrees. */
  lemma DirtyIsFork(H: HashFn, t: Shape, s: Shape)
    requires s in Subs(t) && s.o.dirty
    requires forall s :: s in Subs(t) ==> NodeOk(H, s)
    ensures s.Fork? && s.l in Subs(t) && s.r in Subs(t)
    ensures s.o.left == s.l.o && s.o.right == s.r.o && s.o in t.Objs()
    ensures s.l.Height() < s.Height() && s.r.Height() < s.Height()
  {
    assert NodeOk(H, s);
    assert s.o in s.Objs();
    assert s.Fork? ==> NodeOk(H, s.l) && NodeOk(H, s.r);
  }

  lemma CleanChildren(H: HashFn, s: Shape, t: Shape)
    requires t.Distinct() && s in Subs(t) && s.Fork?
    requires forall s :: s in Subs(t) ==> NodeOk(H, s)
    requires !s.l.o.dirty && !s.r.o.dirty
    ensures s.o in t.Objs() && s.Canonical() && s.o.left == s.l.o && s.o.right == s.r.o
    ensures s.l.o != s.o && s.r.o != s.o
    ensures H(s.l.o.hash, s.r.o.hash) == s.Root(H)
  {
    assert NodeOk(H, s) && s.o in s.Objs();
    SubsLinked(H, s, t);
    CleanBelow(H, s.l);
    CleanBelow(H, s.r);
    SubsDiffer(t, s, s.l);
    SubsDiffer(t, s, s.r);
  }

  lemma {:induction false} SubsOfSub(s: Shape, t: Shape)
    requires s in Subs(t)
    ensures Subs(s) <= Subs(t)
  {
    if s != t {
      if s in Subs(t.l) {
        SubsOfSub(s, t.l);
      } else {
        SubsOfSub(s, t.r);
      }
    }
  }

  lemma SubsLinked(H: HashFn, s: Shape, t: Shape)
    requires s in Subs(t) && forall s :: s in Subs(t) ==> NodeOk(H, s)
    ensures s.Canonical() && s.Linked(H)
    ensures s.Fork? ==> s.l.Canonical() && s.r.Canonical() && s.l.Linked(H) && s.r.Linked(H)
  {
    SubsOfSub(s, t);
    NodesLinked(H, s);
  }

  /** The hashing stack: dirty subtrees of t, each lower than the one before. */
  ghost predicate HashingStack(t: Shape, stack: seq<Node>, subs: seq<Shape>) {
    && |stack| == |subs|
    && (forall i :: 0 <= i < |subs| ==> subs[i] in Subs(t) && stack[i] == subs[i].o)
    && (forall i, j :: 0 <= i < j < |subs| ==> subs[j].Height() < subs[i].Height())
  }

  lemma StartStack(t: Shape)
    ensures HashingStack(t, [t.o], [t])
  {}

  lemma StackPush(t: Shape, stack: seq<Node>, subs: seq<Shape>, s: Shape)
    requires HashingStack(t, stack, subs) && subs != [] && s in Subs(t)
    requires s.Height() < subs[|subs| - 1].Height()
    ensures HashingStack(t, stack + [s.o], subs + [s])
  {
    hide Subs, Shape.Height;
  }

  lemma StackPop(t: Shape, stack: seq<Node>, subs: seq<Shape>)
    requires HashingStack(t, stack, subs) && subs != [] && t.Distinct()
    ensures HashingStack(t, stack[..|stack| - 1], subs[..|subs| - 1])
    ensures stack[|stack| - 1] == subs[|subs| - 1].o && subs[|subs| - 1] in Subs(t)
    ensures stack[|stack| - 1] !in stack[..|stack| - 1]
  {
    var k := |subs| - 1;
    forall i | 0 <= i < k
      ensures stack[i] != stack[k]
    {
      SubsDiffer(t, subs[i], subs[k]);
    }
  }
}
