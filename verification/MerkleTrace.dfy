/** What the callbacks of path and serialise read along the trace of a walk. */
module MerkleTrace {
  import opened Sequences
  import opened Rfc6962
  import opened MerkleNode
  import opened MerkleShape
  import opened MerkleLocal

  ghost function Reverse<T>(s: seq<T>): seq<T> {
    if s == [] then [] else Reverse(s[1..]) + [s[0]]
  }

  lemma {:induction false} ReverseSnoc<T>(s: seq<T>, x: T)
    ensures Reverse(s + [x]) == [x] + Reverse(s)
  {
    if s != [] {
      assert (s + [x])[1..] == s[1..] + [x];
      ReverseSnoc(s[1..], x);
    }
  }

  lemma {:induction false} ReverseLength<T>(s: seq<T>)
    ensures |Reverse(s)| == |s|
  {
    if s != [] {
      ReverseLength(s[1..]);
    }
  }

  /** The elements on the way to leaf i, the one at the root first. */
  ghost function ElementsFrom(H: HashFn, t: Shape, i: nat): seq<Element>
    requires t.Canonical()
    decreases t
  {
    if !t.Fork? then []
    else if i < t.l.Count() then [Element(t.r.Root(H), PathRight)] + ElementsFrom(H, t.l, i)
    else [Element(t.l.Root(H), PathLeft)] + ElementsFrom(H, t.r, i - t.l.Count())
  }

  lemma {:induction false} ElementsReversed(H: HashFn, t: Shape, i: nat)
    requires t.Canonical()
    ensures Reverse(ElementsFrom(H, t, i)) == ElementsTo(H, t, i)
    ensures |ElementsFrom(H, t, i)| == |Steps(t, i)|
  {
    if t.Fork? {
      var i' := if i < t.l.Count() then i else i - t.l.Count();
      var t' := if i < t.l.Count() then t.l else t.r;
      ElementsReversed(H, t', i');
      assert ElementsFrom(H, t, i)[1..] == ElementsFrom(H, t', i');
    }
  }

  /** The element the callback of path makes at a node. */
  ghost predicate Shows(s: Step, e: Element)
    reads s.n, s.n.left, s.n.right
  {
    && s.n.left != null && s.n.right != null
    && e == if s.goRight then Element(s.n.left.hash, PathLeft) else Element(s.n.right.hash, PathRight)
  }

  /** In a clean tree the k-th step shows the k-th element. */
  lemma {:induction false} StepShows(H: HashFn, t: Shape, i: nat, k: nat)
    requires t.Canonical() && t.Linked(H) && !t.o.dirty
    requires k < |Steps(t, i)|
    ensures k < |ElementsFrom(H, t, i)| && Shows(Steps(t, i)[k], ElementsFrom(H, t, i)[k])
  {
    ElementsReversed(H, t, i);
    var i' := if i < t.l.Count() then i else i - t.l.Count();
    var t' := if i < t.l.Count() then t.l else t.r;
    if k == 0 {
      CleanBelow(H, t.l);
      CleanBelow(H, t.r);
    } else {
      StepShows(H, t', i', k - 1);
    }
  }

  lemma {:induction false} LeftsReversed(es: seq<Element>)
    ensures Lefts(Reverse(es)) == Reverse(Lefts(es))
    decreases |es|
  {
    if es != [] {
      var init, e := es[..|es| - 1], es[|es| - 1];
      assert es == init + [e];
      ReverseSnoc(init, e);
      LeftsReversed(init);
      LeftsFirst(e, Reverse(init));
      if e.direction.PathLeft? {
        ReverseSnoc(Lefts(init), e.hash);
      } else {
        assert Lefts(es) == Lefts(init);
      }
    }
  }

  lemma {:induction false} LeftsFirst(e: Element, es: seq<Element>)
    ensures Lefts([e] + es) == (if e.direction.PathLeft? then [e.hash] else []) + Lefts(es)
    decreases |es|
  {
    if es == [] {
      assert [e] + es == [] + [e];
      LeftsSnoc([], e);
    } else {
      hide Lefts;
      var init, last := es[..|es| - 1], es[|es| - 1];
      assert es == init + [last] && [e] + es == ([e] + init) + [last];
      LeftsFirst(e, init);
      LeftsSnoc(init, last);
      LeftsSnoc([e] + init, last);
      ConcatAssociates(if e.direction.PathLeft? then [e.hash] else [], Lefts(init),
                       if last.direction.PathLeft? then [last.hash] else []);
    }
  }
}
