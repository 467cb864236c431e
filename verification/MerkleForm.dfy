/** The form of a tree: what is left of a shape without the node objects. */
module MerkleForm {
  import opened Bytes
  import opened Rfc6962
  import opened MerkleNode
  import opened MerkleZipper

  datatype Form = One(h: Hash) | Gone(height: nat, ls: seq<Hash>) | Two(l: Form, r: Form)

  ghost function FormOf(t: Shape): Form {
    match t
    case Leaf(_, h) => One(h)
    case Pruned(_, ht, ls) => Gone(ht, ls)
    case Fork(_, l, r) => Two(FormOf(l), FormOf(r))
  }

  lemma FlushedSide(t: Shape)
    requires t.Canonical() && t.Fork?
    ensures if t.l.Pruned? then t.l.Count() <= t.Flushed() else t.Flushed() < t.l.Count()
  {
    Bounds(t.l);
    Bounds(t.r);
    Counts(t.l);
  }

  lemma PrunedHeight(s: Shape, t: Shape)
    requires s.Pruned? && t.Pruned? && s.Canonical() && t.Canonical() && s.ls == t.ls
    ensures s.ht == t.ht
  {
    if s.ht < t.ht {
      Pow2Strict(s.ht - 1, t.ht - 1);
    } else if t.ht < s.ht {
      Pow2Strict(t.ht - 1, s.ht - 1);
    }
  }

  /** Two trees over the same leaves split at the same place. */
  lemma SameBranches(s: Shape, t: Shape)
    requires s.Canonical() && t.Canonical() && s.Fork? && t.Fork? && s.Content() == t.Content()
    ensures s.l.Content() == t.l.Content() && s.r.Content() == t.r.Content()
  {
    ForkBranches(s);
    ForkBranches(t);
    hide Shape.Canonical, Branches, Split;
    SplitOfBranches(s.l.Content(), s.r.Content(), s.l.Height() - 1);
    SplitOfBranches(t.l.Content(), t.r.Content(), t.l.Height() - 1);
    var ls, k := s.Content(), Split(s.Count());
    assert s.l.Content() == ls[..k] == t.l.Content();
    assert s.r.Content() == ls[k..] == t.r.Content();
  }

  /**
   The leaves and the number of flushed ones determine the whole form: where the nodes are, their heights, and what
   has been flushed.
   */
  lemma {:induction false} FormUnique(s: Shape, t: Shape)
    requires s.Canonical() && t.Canonical() && s.Content() == t.Content()
    requires s.Pruned? == t.Pruned? && s.Flushed() == t.Flushed()
    ensures FormOf(s) == FormOf(t)
  {
    if s.Pruned? {
      PrunedHeight(s, t);
    } else {
      Bounds(s);
      Bounds(t);
      FormCases(s);
      FormCases(t);
      if s.Fork? {
        hide Shape.Perfect;
        SameBranches(s, t);
        FlushedSide(s);
        FlushedSide(t);
        FormUnique(s.l, t.l);
        FormUnique(s.r, t.r);
      }
    }
  }

  lemma FormCases(t: Shape)
    requires t.Canonical() && !t.Pruned?
    ensures t.Fork? <==> t.Count() >= 2
    ensures t.Leaf? ==> t.Content() == [t.h]
  {
    if t.Fork? {
      Bounds(t.l);
      Bounds(t.r);
    }
  }

  /** Trees of the same form have the same heights and sizes. */
  lemma {:induction false} SameForm(s: Shape, t: Shape)
    requires FormOf(s) == FormOf(t)
    ensures s.Height() == t.Height() && s.Size() == t.Size() && s.Content() == t.Content()
    ensures s.Flushed() == t.Flushed() && (s.Perfect() == t.Perfect()) && s.Pruned? == t.Pruned?
    ensures s.Canonical() == t.Canonical()
  {
    hide Pow2;
    if s.Fork? {
      SameForm(s.l, t.l);
      SameForm(s.r, t.r);
    }
  }

  /** The nodes of size one without children, from left to right: the leaves, and a flushed leaf whose node stayed. */
  ghost function Ends(t: Shape): seq<Node> {
    match t
    case Leaf(o, _) => [o]
    case Pruned(o, _, ls) => if |ls| == 1 then [o] else []
    case Fork(_, l, r) => Ends(l) + Ends(r)
  }

  lemma PrunedParity(t: Shape)
    requires t.Pruned? && t.Canonical()
    ensures |t.ls| % 2 == if |t.ls| == 1 then 1 else 0
  {
    EvenPow2(t.ht - 1);
  }

  lemma EvenPow2(n: nat)
    ensures Pow2(n) % 2 == (if n == 0 then 1 else 0) && (Pow2(n) == 1 <==> n == 0)
  {
    if n > 0 {
      var p := Pow2(n - 1);
      assert Pow2(n) == 2 * p;
      assert (2 * p) % 2 == 0;
    }
  }

  ghost predicate StrayFirst(ends: seq<Node>, leafNodes: seq<Node>, f: nat) {
    |ends| == |leafNodes| + f % 2 && ends[f % 2..] == leafNodes
  }

  lemma StrayConcat(a: seq<Node>, a': seq<Node>, f: nat, b: seq<Node>, b': seq<Node>, g: nat)
    requires StrayFirst(a, a', f) && StrayFirst(b, b', g) && (g % 2 == 0 || a == [])
    ensures StrayFirst(a + b, a' + b', f + g)
  {
    if a == [] {
      assert a + b == b && a' + b' == b' && f % 2 == 0;
    } else {
      assert (f + g) % 2 == f % 2;
    }
  }

  /** Flushing leaves a stray node of size one exactly when an odd number of leaves is gone; it comes first. */
  lemma {:induction false} StrayNodes(t: Shape)
    requires t.Canonical()
    ensures StrayFirst(Ends(t), t.LeafObjs(), t.Flushed())
  {
    if t.Pruned? {
      PrunedParity(t);
    } else if t.Fork? {
      StrayNodes(t.l);
      StrayNodes(t.r);
      Counts(t.r);
      if t.l.Pruned? {
        PrunedParity(t.l);
      }
      hide StrayFirst;
      StrayConcat(Ends(t.l), t.l.LeafObjs(), t.l.Flushed(), Ends(t.r), t.r.LeafObjs(), t.r.Flushed());
    }
  }

  /** What copy_node has appended once it has passed over the given ends. */
  ghost function Appended(skip: nat, ends: seq<Node>): seq<Node> {
    if skip <= |ends| then ends[skip..] else []
  }

  ghost function SkipLeft(skip: nat, ends: seq<Node>): nat {
    if skip <= |ends| then 0 else skip - |ends|
  }

  /** Passing over the stray node leaves the leaf nodes. */
  lemma EndsAreLeaves(t: Shape)
    requires t.Canonical()
    ensures Appended(t.Flushed() % 2, Ends(t)) == t.LeafObjs()
  {
    StrayNodes(t);
  }

  /** The leaf nodes a copy lists when its root begins at leaf k: one too few if an odd number was flushed before k. */
  ghost function Listed(t: Shape, f: nat, k: nat): seq<Node> {
    if f % 2 == 1 && f <= k && t.LeafObjs() != [] then t.LeafObjs()[1..] else t.LeafObjs()
  }

  lemma ListedLeaves(t: Shape, f: nat, k: nat)
    requires t.Canonical() && k % 2 == 0 && t.Flushed() == Beyond(f, k)
    ensures Appended(f % 2, Ends(t)) == Listed(t, f, k)
  {
    hide *;
    EndsAreLeaves(t);
    FlushedBefore(f, k);
    if t.Flushed() == 0 {
      LeafNodesFirst(t);
    }
    MakeListed(t, f, k);
  }

  lemma FlushedBefore(f: nat, k: nat)
    requires k % 2 == 0
    ensures if f <= k then Beyond(f, k) == 0 else Beyond(f, k) % 2 == f % 2
  {}

  lemma MakeListed(t: Shape, f: nat, k: nat)
    requires Appended(t.Flushed() % 2, Ends(t)) == t.LeafObjs()
    requires if f <= k then t.Flushed() == 0 && Ends(t) == t.LeafObjs() != [] else t.Flushed() % 2 == f % 2
    ensures Appended(f % 2, Ends(t)) == Listed(t, f, k)
  {
    hide Shape.Flushed, Ends, Shape.LeafObjs;
  }

  /** With nothing flushed the ends are the leaf nodes. */
  lemma LeafNodesFirst(t: Shape)
    requires t.Canonical() && t.Flushed() == 0
    ensures Ends(t) == t.LeafObjs() != []
  {
    hide Shape.Canonical, Shape.LeafObjs, Ends, Shape.Flushed, Shape.Content, Shape.Height, Pow2;
    StrayNodes(t);
    Counts(t);
    Bounds(t);
  }

  lemma AppendedConcat(skip: nat, a: seq<Node>, b: seq<Node>)
    ensures Appended(skip, a + b) == Appended(skip, a) + Appended(SkipLeft(skip, a), b)
    ensures SkipLeft(skip, a + b) == SkipLeft(SkipLeft(skip, a), b)
  {}

  ghost predicate Copied(H: HashFn, s: Shape, s': Shape)
    requires s.Canonical()
    reads s.Objs(), s'.Objs()
  {
    && FormOf(s') == FormOf(s) && s'.Canonical() && s'.Distinct() && s'.Linked(H)
    && s'.o.dirty == s.o.dirty && s'.o.hash == s.o.hash && s'.o.size == s.Size()
  }

  lemma CopiedFork(H: HashFn, s: Shape, l': Shape, r': Shape, n: Node)
    requires s.Canonical() && s.Fork? && s.Linked(H) && Copied(H, s.l, l') && Copied(H, s.r, r')
    requires n !in l'.Objs() && n !in r'.Objs() && l'.Objs() !! r'.Objs()
    requires n.left == l'.o && n.right == r'.o && n.size == s.o.size && n.height == s.o.height
    requires n.dirty == s.o.dirty && n.hash == s.o.hash
    ensures Copied(H, s, Fork(n, l', r')) && n.size >= 3
    ensures var s' := Fork(n, l', r'); s'.Objs() == {n} + l'.Objs() + r'.Objs() && Ends(s') == Ends(l') + Ends(r')
  {
    SameForm(s.l, l');
    SameForm(s.r, r');
    RootOfForm(H, s.l, l');
    RootOfForm(H, s.r, r');
    SameForm(s, Fork(n, l', r'));
    Counts(s.l);
    Counts(s.r);
    Bounds(s.l);
    Bounds(s.r);
    hide Shape.Perfect;
  }

  lemma {:induction false} RootOfForm(H: HashFn, s: Shape, t: Shape)
    requires s.Canonical() && t.Canonical() && FormOf(s) == FormOf(t)
    ensures s.Root(H) == t.Root(H)
  {
    if s.Fork? {
      RootOfForm(H, s.l, t.l);
      RootOfForm(H, s.r, t.r);
    }
  }

  lemma Below(H: HashFn, s: Shape)
    requires s.Canonical() && s.Distinct() && s.Linked(H)
    ensures s.o in s.Objs()
    ensures s.Fork? ==>
      && s.o.left == s.l.o && s.o.right == s.r.o && s.l.Objs() <= s.Objs() && s.r.Objs() <= s.Objs()
      && s.l.Canonical() && s.l.Distinct() && s.l.Linked(H) && s.r.Canonical() && s.r.Distinct() && s.r.Linked(H)
    ensures !s.Fork? ==> s.o.left == null && s.o.right == null
  {}

  lemma Appending(toSkip: nat, ends: seq<Node>)
    ensures Appended(toSkip, ends) == if toSkip <= |ends| then ends[toSkip..] else []
    ensures SkipLeft(toSkip, ends) == if toSkip <= |ends| then 0 else toSkip - |ends|
  {}

  /** copy_node: copies a subtree and appends its ends to the leaf nodes, except for the first toSkip. */
  method CopyNode(H: HashFn, from: Node, leafNodes: seq<Node>, toSkip: nat, ghost s: Shape)
    returns (r: Node, leafNodes': seq<Node>, toSkip': nat, ghost s': Shape)
    requires s.Canonical() && s.Distinct() && s.Linked(H) && from == s.o
    ensures r == s'.o && Copied(H, s, s') && fresh(s'.Objs())
    ensures leafNodes' == leafNodes + Appended(toSkip, Ends(s')) && toSkip' == SkipLeft(toSkip, Ends(s'))
    decreases s
  {
    hide Shape.Canonical, Shape.Linked, Shape.Distinct, Shape.Objs, Copied, Ends, Appended, SkipLeft, FormOf;
    assert allocated(s.Objs());
    Below(H, s);
    r := new Node.Leaf(from.hash);
    r.size, r.height, r.dirty := from.size, from.height, from.dirty;
    leafNodes', toSkip' := leafNodes, toSkip;
    if from.left != null && from.right != null {
      ghost var l', r';
      var left, right;
      left, leafNodes', toSkip', l' := CopyNode(H, from.left, leafNodes', toSkip', s.l);
      assert allocated(l'.Objs());
      right, leafNodes', toSkip', r' := CopyNode(H, from.right, leafNodes', toSkip', s.r);
      r.left, r.right := left, right;
      s' := Fork(r, l', r');
      AppendedConcat(toSkip, Ends(l'), Ends(r'));
      CopiedFork(H, s, l', r', r);
    } else {
      s' := if s.Leaf? then Leaf(r, s.h) else Pruned(r, s.ht, s.ls);
      CopiedEnd(H, s, s');
      Appending(toSkip, Ends(s'));
    }
    if r.size == 1 && r.left == null && r.right == null {
      if toSkip' == 0 {
        leafNodes' := leafNodes' + [r];
      } else {
        toSkip' := toSkip' - 1;
      }
    }
  }

  lemma CopiedEnd(H: HashFn, s: Shape, s': Shape)
    requires s.Canonical() && s.Linked(H) && !s.Fork?
    requires s' == if s.Leaf? then Leaf(s'.o, s.h) else Pruned(s'.o, s.ht, s.ls)
    requires var n := s'.o;
      && n.left == null && n.right == null && n.size == s.o.size && n.height == s.o.height
      && n.dirty == s.o.dirty && n.hash == s.o.hash
    ensures Copied(H, s, s') && (s'.o.size == 1 <==> Ends(s') == [s'.o]) && (s'.o.size != 1 <==> Ends(s') == [])
    ensures s'.Objs() == {s'.o}
  {}
}
