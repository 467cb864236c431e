/**
 The reference model of the Merkle tree: the tree hash of section 2.1 of RFC 6962 and the audit paths of section
 2.1.1, over a list of leaf hashes and without the 0x00 and 0x01 prefixes. The node hash is an arbitrary function.
 */
module Rfc6962 {
  import opened Sequences
  import opened Bytes

  const HASH_SIZE: nat := 32

  type Digest = b: seq<byte> | |b| == HASH_SIZE witness seq(HASH_SIZE, _ => 0)

  datatype Hash = Hash(bytes: Digest)

  type HashFn = (Hash, Hash) -> Hash

  datatype Direction = PathLeft | PathRight

  datatype Element = Element(hash: Hash, direction: Direction)

  /** The exponent of the largest power of two smaller than n. */
  function SplitExponent(n: nat): (e: nat)
    requires n >= 2
    ensures Pow2(e) < n <= 2 * Pow2(e)
  {
    if n == 2 then 0 else SplitExponent((n + 1) / 2) + 1
  }

  /** The largest power of two smaller than n. */
  function Split(n: nat): (k: nat)
    requires n >= 2
    ensures k < n <= 2 * k
  {
    Pow2(SplitExponent(n))
  }

  lemma SplitUnique(n: nat, e: nat)
    requires Pow2(e) < n <= 2 * Pow2(e)
    ensures n >= 2 && Split(n) == Pow2(e)
  {
    var s := SplitExponent(n);
    if s < e {
      Pow2Monotone(s + 1, e);
    } else if e < s {
      Pow2Monotone(e + 1, s);
    }
  }

  /** The Merkle tree hash of a non-empty list of leaf hashes. */
  function TreeHash(H: HashFn, ls: seq<Hash>): Hash
    requires |ls| >= 1
  {
    if |ls| == 1 then ls[0]
    else
      var k := Split(|ls|);
      H(TreeHash(H, ls[..k]), TreeHash(H, ls[k..]))
  }

  /** The audit path of leaf i, from the leaf to the root. */
  function AuditPath(H: HashFn, i: nat, ls: seq<Hash>): seq<Element>
    requires i < |ls|
    decreases |ls|
  {
    if |ls| == 1 then []
    else
      var k := Split(|ls|);
      if i < k then AuditPath(H, i, ls[..k]) + [Element(TreeHash(H, ls[k..]), PathRight)]
      else AuditPath(H, i - k, ls[k..]) + [Element(TreeHash(H, ls[..k]), PathLeft)]
  }

  /** One step of hashing along a path. */
  function Join(H: HashFn, e: Element, h: Hash): Hash {
    if e.direction.PathLeft? then H(e.hash, h) else H(h, e.hash)
  }

  /** The hash at the end of a path. */
  function PathRoot(H: HashFn, leaf: Hash, es: seq<Element>): Hash {
    if es == [] then leaf else Join(H, es[|es| - 1], PathRoot(H, leaf, es[..|es| - 1]))
  }

  /** The hashes of the elements that join from the left, in order. */
  function Lefts(es: seq<Element>): seq<Hash> {
    if es == [] then []
    else
      var e := es[|es| - 1];
      Lefts(es[..|es| - 1]) + if e.direction.PathLeft? then [e.hash] else []
  }

  /** Hashes joined one after the other from the left. */
  function FoldLefts(H: HashFn, leaf: Hash, hs: seq<Hash>): Hash {
    if hs == [] then leaf else H(hs[|hs| - 1], FoldLefts(H, leaf, hs[..|hs| - 1]))
  }

  lemma PathRootSnoc(H: HashFn, leaf: Hash, es: seq<Element>, e: Element)
    ensures PathRoot(H, leaf, es + [e]) == Join(H, e, PathRoot(H, leaf, es))
  {
    assert (es + [e])[..|es|] == es;
  }

  lemma LeftsSnoc(es: seq<Element>, e: Element)
    ensures Lefts(es + [e]) == Lefts(es) + if e.direction.PathLeft? then [e.hash] else []
  {
    assert (es + [e])[..|es|] == es;
  }

  lemma FoldLeftsSnoc(H: HashFn, leaf: Hash, hs: seq<Hash>, h: Hash)
    ensures FoldLefts(H, leaf, hs + [h]) == H(h, FoldLefts(H, leaf, hs))
  {
    assert (hs + [h])[..|hs|] == hs;
  }

  /** Whether a and b are the two subtrees of a canonical tree: a has 2^e leaves, b at least one and at most as many. */
  ghost predicate Branches(a: seq<Hash>, b: seq<Hash>, e: nat) {
    |a| == Pow2(e) && 1 <= |b| <= |a|
  }

  lemma SplitOfBranches(a: seq<Hash>, b: seq<Hash>, e: nat)
    requires Branches(a, b, e)
    ensures |a + b| >= 2 && Split(|a + b|) == |a| && (a + b)[..|a|] == a && (a + b)[|a|..] == b
  {
    SplitUnique(|a + b|, e);
  }

  /** Every list of two or more leaves is two branches. */
  lemma BranchesOf(ls: seq<Hash>) returns (a: seq<Hash>, b: seq<Hash>, e: nat)
    requires |ls| >= 2
    ensures Branches(a, b, e) && ls == a + b && |a| == Split(|ls|)
  {
    e := SplitExponent(|ls|);
    a, b := ls[..Pow2(e)], ls[Pow2(e)..];
  }

  lemma TreeHashBranches(H: HashFn, a: seq<Hash>, b: seq<Hash>, e: nat)
    requires Branches(a, b, e)
    ensures TreeHash(H, a + b) == H(TreeHash(H, a), TreeHash(H, b))
  {
    SplitOfBranches(a, b, e);
  }

  lemma AuditPathBranches(H: HashFn, i: nat, a: seq<Hash>, b: seq<Hash>, e: nat)
    requires Branches(a, b, e) && i < |a + b|
    ensures AuditPath(H, i, a + b) ==
            if i < |a| then AuditPath(H, i, a) + [Element(TreeHash(H, b), PathRight)]
            else AuditPath(H, i - |a|, b) + [Element(TreeHash(H, a), PathLeft)]
  {
    hide *;
    SplitOfBranches(a, b, e);
    AuditPathSplit(H, i, a + b, a, b);
  }

  lemma AuditPathSplit(H: HashFn, i: nat, ls: seq<Hash>, a: seq<Hash>, b: seq<Hash>)
    requires i < |ls| && |ls| >= 2 && |a| == Split(|ls|) && a == ls[..Split(|ls|)] && b == ls[Split(|ls|)..]
    ensures AuditPath(H, i, ls) ==
            if i < |a| then AuditPath(H, i, a) + [Element(TreeHash(H, b), PathRight)]
            else AuditPath(H, i - |a|, b) + [Element(TreeHash(H, a), PathLeft)]
  {
    hide TreeHash, Split;
  }

  lemma LeftsBranches(H: HashFn, i: nat, a: seq<Hash>, b: seq<Hash>, e: nat)
    requires Branches(a, b, e) && i < |a + b|
    ensures Lefts(AuditPath(H, i, a + b)) ==
            if i < |a| then Lefts(AuditPath(H, i, a))
            else Lefts(AuditPath(H, i - |a|, b)) + [TreeHash(H, a)]
  {
    AuditPathBranches(H, i, a, b, e);
    if i < |a| {
      LeftsSnoc(AuditPath(H, i, a), Element(TreeHash(H, b), PathRight));
    } else {
      LeftsSnoc(AuditPath(H, i - |a|, b), Element(TreeHash(H, a), PathLeft));
    }
  }

  /** Up to three leaves, written out. */
  lemma TreeHashOfThree(H: HashFn, a: Hash, b: Hash, c: Hash)
    ensures TreeHash(H, [a]) == a && TreeHash(H, [a, b]) == H(a, b) && TreeHash(H, [a, b, c]) == H(H(a, b), c)
  {
    hide TreeHash;
    TreeHashOfOne(H, a);
    TreeHashOfOne(H, b);
    TreeHashOfOne(H, c);
    assert [a] + [b] == [a, b] && [a, b] + [c] == [a, b, c];
    TreeHashBranches(H, [a], [b], 0);
    TreeHashBranches(H, [a, b], [c], 1);
  }

  lemma TreeHashOfOne(H: HashFn, a: Hash)
    ensures TreeHash(H, [a]) == a
  {}

  /** Hashing along an audit path gives the tree hash. */
  lemma {:induction false} AuditPathRoot(H: HashFn, i: nat, ls: seq<Hash>)
    requires i < |ls|
    ensures PathRoot(H, ls[i], AuditPath(H, i, ls)) == TreeHash(H, ls)
    decreases |ls|
  {
    if |ls| > 1 {
      hide AuditPath, TreeHash, Split;
      var a, b, e := BranchesOf(ls);
      AuditPathBranches(H, i, a, b, e);
      TreeHashBranches(H, a, b, e);
      if i < |a| {
        AuditPathRoot(H, i, a);
        PathRootSnoc(H, ls[i], AuditPath(H, i, a), Element(TreeHash(H, b), PathRight));
      } else {
        AuditPathRoot(H, i - |a|, b);
        PathRootSnoc(H, ls[i], AuditPath(H, i - |a|, b), Element(TreeHash(H, a), PathLeft));
      }
    }
  }

  /** Hashing only the left elements of an audit path gives the tree hash of the leaves up to and including i. */
  lemma {:induction false} AuditPathPastRoot(H: HashFn, i: nat, ls: seq<Hash>)
    requires i < |ls|
    ensures FoldLefts(H, ls[i], Lefts(AuditPath(H, i, ls))) == TreeHash(H, ls[..i + 1])
    decreases |ls|
  {
    hide *;
    if |ls| == 1 {
      PastRootOfOne(H, ls);
    } else {
      var a, b, e := BranchesOf(ls);
      if i < |a| {
        AuditPathPastRoot(H, i, a);
      } else {
        AuditPathPastRoot(H, i - |a|, b);
      }
      PastRootBranches(H, i, a, b, e);
    }
  }

  lemma PastRootOfOne(H: HashFn, ls: seq<Hash>)
    requires |ls| == 1
    ensures FoldLefts(H, ls[0], Lefts(AuditPath(H, 0, ls))) == TreeHash(H, ls[..1])
  {
    assert ls[..1] == ls;
  }

  lemma PastRootBranches(H: HashFn, i: nat, a: seq<Hash>, b: seq<Hash>, e: nat)
    requires Branches(a, b, e) && i < |a + b|
    requires i < |a| ==> FoldLefts(H, a[i], Lefts(AuditPath(H, i, a))) == TreeHash(H, a[..i + 1])
    requires i >= |a| ==>
      var j := i - |a|;
      FoldLefts(H, b[j], Lefts(AuditPath(H, j, b))) == TreeHash(H, b[..j + 1])
    ensures FoldLefts(H, (a + b)[i], Lefts(AuditPath(H, i, a + b))) == TreeHash(H, (a + b)[..i + 1])
  {
    hide AuditPath, TreeHash, Lefts, Split, FoldLefts;
    LeftsBranches(H, i, a, b, e);
    PrefixOfConcat(a, b, i + 1);
    if i >= |a| {
      var j := i - |a|;
      TreeHashBranches(H, a, b[..j + 1], e);
      FoldLeftsSnoc(H, b[j], Lefts(AuditPath(H, j, b)), TreeHash(H, a));
    }
  }

  /** Leaves appended later do not change the left elements of an audit path. */
  lemma {:induction false} LeftsOfPrefix(H: HashFn, i: nat, m: nat, ls: seq<Hash>)
    requires i < m <= |ls|
    ensures Lefts(AuditPath(H, i, ls[..m])) == Lefts(AuditPath(H, i, ls))
    decreases |ls|
  {
    if m == |ls| {
      assert ls[..m] == ls;
    } else {
      hide AuditPath, TreeHash, Lefts, Split;
      var a, b, e := BranchesOf(ls);
      LeftsBranches(H, i, a, b, e);
      PrefixOfConcat(a, b, m);
      if m <= |a| {
        LeftsOfPrefix(H, i, m, a);
      } else {
        LeftsBranches(H, i, a, b[..m - |a|], e);
        if i >= |a| {
          LeftsOfPrefix(H, i - |a|, m - |a|, b);
        }
      }
    }
  }
}
