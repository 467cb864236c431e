/** Merkle paths: PathT of merklecpp. */
module MerklePath {
  import opened Wrappers
  import opened Bytes
  import opened Rfc6962
  import opened MerkleModel
  import opened MerkleRow
  import opened MerkleTree

  /** root: hashes along the path. */
  method Root(H: HashFn, p: PathT) returns (result: Hash)
    ensures result == PathRoot(H, p.leaf, p.elements)
  {
    result := p.leaf;
    var es := p.elements;
    assert es[..0] == [];
    for i := 0 to |es|
      invariant result == PathRoot(H, p.leaf, es[..i])
    {
      PathRootSnoc(H, p.leaf, es[..i], es[i]);
      assert es[..i + 1] == es[..i] + [es[i]];
      if es[i].direction == PathLeft {
        result := H(es[i].hash, result);
      } else {
        result := H(result, es[i].hash);
      }
    }
    assert es[..|es|] == es;
  }

  ghost predicate Verifies(H: HashFn, p: PathT, root: Hash) {
    PathRoot(H, p.leaf, p.elements) == root
  }

  method Verify(H: HashFn, p: PathT, expectedRoot: Hash) returns (ok: bool)
    ensures ok <==> Verifies(H, p, expectedRoot)
  {
    var root := Root(H, p);
    ok := root == expectedRoot;
  }

  function Directions(es: seq<Element>): seq<Direction> {
    if es == [] then [] else Directions(es[..|es| - 1]) + [es[|es| - 1].direction]
  }

  lemma DirectionsSnoc(es: seq<Element>, e: Element)
    ensures Directions(es + [e]) == Directions(es) + [e.direction]
  {
    assert (es + [e])[..|es|] == es;
  }

  /** The two inputs of the hash function at an element. */
  function Inputs(e: Element, h: Hash): (Hash, Hash) {
    if e.direction == PathLeft then (e.hash, h) else (h, e.hash)
  }

  /** Walks two paths from the top, and stops where the inputs of the hash function differ. */
  function Collision(H: HashFn, leaf: Hash, es: seq<Element>, leaf': Hash, es': seq<Element>):
    (c: ((Hash, Hash), (Hash, Hash)))
    requires |es| == |es'| > 0
    decreases |es|
  {
    var k := |es| - 1;
    var c := Inputs(es[k], PathRoot(H, leaf, es[..k]));
    var c' := Inputs(es'[k], PathRoot(H, leaf', es'[..k]));
    if c != c' || k == 0 then (c, c') else Collision(H, leaf, es[..k], leaf', es'[..k])
  }

  /**
   Paths bind: two paths with the same directions and the same root either are equal, or they lead to two different
   inputs with the same hash.
   */
  lemma {:induction false} PathBinding(H: HashFn, leaf: Hash, es: seq<Element>, leaf': Hash, es': seq<Element>)
    requires Directions(es) == Directions(es') && PathRoot(H, leaf, es) == PathRoot(H, leaf', es')
    ensures |es| == |es'|
    ensures leaf != leaf' || es != es' ==>
      es != [] && var (c, c') := Collision(H, leaf, es, leaf', es'); c != c' && H(c.0, c.1) == H(c'.0, c'.1)
    decreases |es|
  {
    DirectionsLength(es);
    DirectionsLength(es');
    if es != [] {
      var k := |es| - 1;
      var c := Inputs(es[k], PathRoot(H, leaf, es[..k]));
      var c' := Inputs(es'[k], PathRoot(H, leaf', es'[..k]));
      assert Directions(es)[k] == es[k].direction && Directions(es')[k] == es'[k].direction;
      assert Directions(es)[..k] == Directions(es[..k]) && Directions(es')[..k] == Directions(es'[..k]);
      assert es == es[..k] + [es[k]] && es' == es'[..k] + [es'[k]];
      if c == c' {
        PathBinding(H, leaf, es[..k], leaf', es'[..k]);
      }
    }
  }

  lemma {:induction false} DirectionsLength(es: seq<Element>)
    ensures |Directions(es)| == |es|
  {
    if es != [] {
      DirectionsLength(es[..|es| - 1]);
    }
  }

  /** The directions of an audit path depend on the index and the number of leaves only. */
  lemma {:induction false} AuditDirections(H: HashFn, i: nat, ls: seq<Hash>, ls': seq<Hash>)
    requires i < |ls| == |ls'|
    ensures Directions(AuditPath(H, i, ls)) == Directions(AuditPath(H, i, ls'))
    decreases |ls|
  {
    if |ls| > 1 {
      hide AuditPath, TreeHash, Directions, Split;
      var a, b, e := BranchesOf(ls);
      var a', b', e' := BranchesOf(ls');
      AuditPathBranches(H, i, a, b, e);
      AuditPathBranches(H, i, a', b', e');
      if i < |a| {
        AuditDirections(H, i, a, a');
        DirectionsSnoc(AuditPath(H, i, a), Element(TreeHash(H, b), PathRight));
        DirectionsSnoc(AuditPath(H, i, a'), Element(TreeHash(H, b'), PathRight));
      } else {
        AuditDirections(H, i - |a|, b, b');
        DirectionsSnoc(AuditPath(H, i - |a|, b), Element(TreeHash(H, a), PathLeft));
        DirectionsSnoc(AuditPath(H, i - |a|, b'), Element(TreeHash(H, a'), PathLeft));
      }
    }
  }

  /**
   Whoever presents a verifying path with the directions of leaf i presents that leaf and its audit path, or a
   collision of the hash function.
   */
  lemma VerifiedLeaf(H: HashFn, p: PathT, i: nat, ls: seq<Hash>, shown: seq<Hash>)
    requires i < |ls| == |shown| && Directions(p.elements) == Directions(AuditPath(H, i, shown))
    requires Verifies(H, p, TreeHash(H, ls))
    ensures |p.elements| == |AuditPath(H, i, ls)|
    ensures p.leaf != ls[i] || p.elements != AuditPath(H, i, ls) ==>
      && p.elements != []
      && var (c, c') := Collision(H, p.leaf, p.elements, ls[i], AuditPath(H, i, ls));
         c != c' && H(c.0, c.1) == H(c'.0, c'.1)
  {
    AuditDirections(H, i, ls, shown);
    AuditPathRoot(H, i, ls);
    PathBinding(H, p.leaf, p.elements, ls[i], AuditPath(H, i, ls));
  }

  function ElementBytes(e: Element): seq<byte> {
    e.hash.bytes + [if e.direction == PathLeft then 1 else 0]
  }

  function ElementsBytes(es: seq<Element>): seq<byte> {
    if es == [] then [] else ElementBytes(es[0]) + ElementsBytes(es[1..])
  }

  lemma ElementParts(e: Element)
    ensures ElementBytes(e) == e.hash.bytes + [if e.direction == PathLeft then 1 else 0]
  {}

  lemma NoElements()
    ensures ElementsBytes([]) == []
  {}

  lemma {:induction false} ElementsBytesSnoc(es: seq<Element>, e: Element)
    ensures ElementsBytes(es + [e]) == ElementsBytes(es) + ElementBytes(e)
  {
    if es == [] {
      assert [] + [e] == [e] && [e][1..] == [];
    } else {
      assert (es + [e])[1..] == es[1..] + [e];
      ElementsBytesSnoc(es[1..], e);
    }
  }

  /** The bytes before the elements: the leaf, two indices, and the number of elements. */
  const HEAD_BYTES: nat := HASH_SIZE + 24

  function HeadBytes(p: PathT): (r: seq<byte>)
    ensures |r| == HEAD_BYTES
  {
    p.leaf.bytes + BigEndian(p.leafIndex, 8) + BigEndian(p.maxIndex, 8) + BigEndian(|p.elements|, 8)
  }

  function PathBytes(p: PathT): seq<byte> {
    HeadBytes(p) + ElementsBytes(p.elements)
  }

  /** What sizeof gives for a path element: a hash and a four-byte direction. */
  const ELEMENT_SIZE: nat := HASH_SIZE + 4

  /** serialised_size */
  function SerialisedSize(p: PathT): nat {
    HASH_SIZE + |p.elements| * ELEMENT_SIZE
  }

  lemma {:induction false} ElementsBytesLength(es: seq<Element>)
    ensures |ElementsBytes(es)| == (HASH_SIZE + 1) * |es|
  {
    if es != [] {
      ElementsBytesLength(es[1..]);
    }
  }

  /**
   serialised_size leaves out the index fields and counts the padding of elements in memory, so it is the number of
   bytes that serialise writes only for paths of eight elements.
   */
  lemma SerialisedSizeRight(p: PathT)
    ensures SerialisedSize(p) == |PathBytes(p)| <==> |p.elements| == 8
  {
    ElementsBytesLength(p.elements);
  }

  /** The path of the only leaf of a tree takes 56 bytes, and serialised_size says 32. */
  lemma SerialisedSizeWrong(leaf: Hash)
    ensures var p := PathT(leaf, 0, [], 0); SerialisedSize(p) == 32 && |PathBytes(p)| == 56
  {}

  predicate Fits(p: PathT) {
    p.leafIndex < U64_LIMIT && p.maxIndex < U64_LIMIT && |p.elements| < U64_LIMIT
  }

  /** The parts of a path, written one after the other. */
  lemma AssembledPath(bytes: seq<byte>, p: PathT)
    ensures bytes + p.leaf.bytes + BigEndian(p.leafIndex, 8) + BigEndian(p.maxIndex, 8) + BigEndian(|p.elements|, 8)
         == bytes + HeadBytes(p)
    ensures (bytes + HeadBytes(p)) + ElementsBytes(p.elements) == bytes + PathBytes(p)
  {
    hide BigEndian, ElementsBytes;
  }

  /** serialise */
  method Serialise(p: PathT, bytes: seq<byte>) returns (out: seq<byte>)
    requires Fits(p)
    ensures out == bytes + PathBytes(p)
  {
    hide BigEndian, ElementBytes, ElementsBytes, PathBytes, HeadBytes;
    AssembledPath(bytes, p);
    out := bytes + p.leaf.bytes;
    out := SerialiseU64(p.leafIndex, out);
    out := SerialiseU64(p.maxIndex, out);
    out := SerialiseU64(|p.elements|, out);
    ghost var head := out;
    var es := p.elements;
    assert es[..0] == [];
    NoElements();
    for i := 0 to |es|
      invariant out == head + ElementsBytes(es[..i])
    {
      ElementsBytesSnoc(es[..i], es[i]);
      assert es[..i + 1] == es[..i] + [es[i]];
      ElementParts(es[i]);
      out := out + es[i].hash.bytes;
      out := out + [if es[i].direction == PathLeft then 1 else 0];
    }
    assert es[..|es|] == es;
  }

  lemma UnreadElement(bytes: seq<byte>, position: nat, e: Element, es: seq<Element>)
    requires Unread(bytes, position, ElementsBytes([e] + es))
    ensures position + HASH_SIZE < |bytes| && Unread(bytes, position, e.hash.bytes)
    ensures bytes[position + HASH_SIZE] == if e.direction == PathLeft then 1 else 0
    ensures Unread(bytes, position + HASH_SIZE + 1, ElementsBytes(es))
  {
    assert ([e] + es)[1..] == es;
    UnreadParts(bytes, position, ElementBytes(e), ElementsBytes(es));
    var d: byte := if e.direction == PathLeft then 1 else 0;
    UnreadParts(bytes, position, e.hash.bytes, [d]);
    assert bytes[position + HASH_SIZE..position + HASH_SIZE + 1][0] == d;
  }

  lemma UnreadPath(bytes: seq<byte>, position: nat, p: PathT)
    requires Fits(p) && Unread(bytes, position, PathBytes(p))
    ensures position + HASH_SIZE + 24 <= |bytes| && Unread(bytes, position, p.leaf.bytes)
    ensures var q := position + HASH_SIZE;
      && FromBigEndian(bytes[q..q + 8]) == p.leafIndex && FromBigEndian(bytes[q + 8..q + 16]) == p.maxIndex
      && FromBigEndian(bytes[q + 16..q + 24]) == |p.elements|
      && Unread(bytes, q + 24, ElementsBytes(p.elements))
    ensures |PathBytes(p)| == HASH_SIZE + 24 + |ElementsBytes(p.elements)|
  {
    hide Unread, BigEndian, FromBigEndian, ElementsBytes;
    U64LimitIsPow256();
    BigEndianRoundTrip(p.leafIndex, 8);
    BigEndianRoundTrip(p.maxIndex, 8);
    BigEndianRoundTrip(|p.elements|, 8);
    var a, b, c, d := p.leaf.bytes, BigEndian(p.leafIndex, 8), BigEndian(p.maxIndex, 8), BigEndian(|p.elements|, 8);
    UnreadParts(bytes, position, a + b + c + d, ElementsBytes(p.elements));
    UnreadParts(bytes, position, a + b + c, d);
    UnreadParts(bytes, position, a + b, c);
    UnreadParts(bytes, position, a, b);
    var q := position + HASH_SIZE;
    UnreadRange(bytes, q, b);
    UnreadRange(bytes, q + 8, c);
    UnreadRange(bytes, q + 16, d);
  }

  /** The bytes of one element. */
  const ELEMENT_BYTES: nat := HASH_SIZE + 1

  function ElementAt(bytes: seq<byte>, position: nat): Element
    requires position + ELEMENT_BYTES <= |bytes|
  {
    Element(Hash(bytes[position..position + HASH_SIZE]),
            if bytes[position + HASH_SIZE] != 0 then PathLeft else PathRight)
  }

  function ElementsAt(bytes: seq<byte>, position: nat, n: nat): (es: seq<Element>)
    requires position + n * ELEMENT_BYTES <= |bytes|
    ensures |es| == n
  {
    seq(n, i requires 0 <= i < n => ElementAt(bytes, position + i * ELEMENT_BYTES))
  }

  function CountAt(bytes: seq<byte>, position: nat): nat
    requires position + HEAD_BYTES <= |bytes|
  {
    FromBigEndian(bytes[position + HASH_SIZE + 16..position + HEAD_BYTES])
  }

  /**
   Bytes on which deserialise stays inside its input. It looks for the end of the input only where it reads a hash, so
   the input must not end in the numbers, or between the hash and the direction of an element.
   */
  predicate Readable(bytes: seq<byte>, position: nat) {
    position <= |bytes| &&
    (|bytes| - position >= HASH_SIZE ==>
       && position + HEAD_BYTES <= |bytes|
       && var rest := |bytes| - (position + HEAD_BYTES);
          CountAt(bytes, position) * ELEMENT_BYTES <= rest || rest % ELEMENT_BYTES != HASH_SIZE)
  }

  /** The path in the bytes, or None for the exception that there are not enough bytes. */
  function PathAt(bytes: seq<byte>, position: nat): Option<PathT>
    requires Readable(bytes, position)
  {
    if |bytes| - position < HASH_SIZE then None
    else
      var q, n := position + HASH_SIZE, CountAt(bytes, position);
      if q + 24 + n * ELEMENT_BYTES > |bytes| then None
      else Some(PathT(Hash(bytes[position..q]), FromBigEndian(bytes[q..q + 8]), ElementsAt(bytes, q + 24, n),
                      FromBigEndian(bytes[q + 8..q + 16])))
  }

  /** deserialise */
  method Deserialise(bytes: seq<byte>, position: nat) returns (r: Option<PathT>, next: nat)
    requires Readable(bytes, position)
    ensures r == PathAt(bytes, position)
    ensures r.Some? ==> next == position + 56 + |r.value.elements| * 33 <= |bytes|
  {
    hide FromBigEndian;
    var leaf, leafIndex, maxIndex, numElements;
    leaf, next := ReadHash(bytes, position);
    if leaf == None {
      return None, next;
    }
    leafIndex, next := DeserialiseU64(bytes, next);
    maxIndex, next := DeserialiseU64(bytes, next);
    numElements, next := DeserialiseU64(bytes, next);
    var elements: seq<Element> := [];
    ghost var q := next;
    for i := 0 to numElements
      invariant next == q + i * ELEMENT_BYTES <= |bytes| && elements == ElementsAt(bytes, q, i)
    {
      var hash;
      hash, next := ReadHash(bytes, next);
      if hash == None {
        return None, next;
      }
      var direction := if bytes[next] != 0 then PathLeft else PathRight;
      next := next + 1;
      elements := elements + [Element(hash.value, direction)];
    }
    r := Some(PathT(leaf.value, leafIndex, elements, maxIndex));
  }

  /** What is read: a path whenever there are enough bytes, with elements to the left where the byte is not zero. */
  lemma PathRead(bytes: seq<byte>, position: nat)
    requires Readable(bytes, position)
    ensures PathAt(bytes, position).Some? <==>
      position + 56 <= |bytes| && position + 56 + FromBigEndian(bytes[position + 48..position + 56]) * 33 <= |bytes|
    ensures PathAt(bytes, position).Some? ==>
      var p, q := PathAt(bytes, position).value, position + 56;
      && p.leaf.bytes == bytes[position..position + 32]
      && p.leafIndex == FromBigEndian(bytes[position + 32..position + 40])
      && p.maxIndex == FromBigEndian(bytes[position + 40..position + 48])
      && |p.elements| == FromBigEndian(bytes[position + 48..q])
      && forall i :: 0 <= i < |p.elements| ==>
           && q + i * 33 + 33 <= |bytes| && p.elements[i].hash.bytes == bytes[q + i * 33..q + i * 33 + 32]
           && (p.elements[i].direction == PathLeft <==> bytes[q + i * 33 + 32] != 0)
  {
    hide FromBigEndian;
  }

  /** The elements written anywhere are those read there. */
  lemma {:induction false} ElementsRead(bytes: seq<byte>, position: nat, es: seq<Element>)
    requires Unread(bytes, position, ElementsBytes(es))
    ensures position + |es| * ELEMENT_BYTES <= |bytes| && ElementsAt(bytes, position, |es|) == es
    decreases |es|
  {
    ElementsBytesLength(es);
    if es != [] {
      assert [es[0]] + es[1..] == es;
      UnreadElement(bytes, position, es[0], es[1..]);
      var next := position + ELEMENT_BYTES;
      ElementsRead(bytes, next, es[1..]);
      ElementsSplit(bytes, position, |es|);
      SameElement(bytes, position, es[0]);
    }
  }

  lemma ElementsSplit(bytes: seq<byte>, position: nat, n: nat)
    requires n > 0 && position + n * ELEMENT_BYTES <= |bytes|
    ensures ElementsAt(bytes, position, n)
         == [ElementAt(bytes, position)] + ElementsAt(bytes, position + ELEMENT_BYTES, n - 1)
  {
    hide ElementAt;
    var es, tail := ElementsAt(bytes, position, n), ElementsAt(bytes, position + ELEMENT_BYTES, n - 1);
    assert forall i :: 0 < i < n ==> es[i] == tail[i - 1];
  }

  lemma SameElement(bytes: seq<byte>, position: nat, e: Element)
    requires position + HASH_SIZE < |bytes| && Unread(bytes, position, e.hash.bytes)
    requires bytes[position + HASH_SIZE] == if e.direction == PathLeft then 1 else 0
    ensures ElementAt(bytes, position) == e
  {}

  /** Reading the bytes of any path gives that path, and the position after it. */
  lemma ReadWritten(bytes: seq<byte>, position: nat, p: PathT)
    requires Fits(p) && Unread(bytes, position, PathBytes(p))
    ensures Readable(bytes, position) && PathAt(bytes, position) == Some(p)
    ensures |PathBytes(p)| == HEAD_BYTES + |p.elements| * ELEMENT_BYTES
  {
    hide Unread, FromBigEndian, ElementsBytes, PathBytes, ElementsAt;
    UnreadPath(bytes, position, p);
    ElementsRead(bytes, position + HEAD_BYTES, p.elements);
    ElementsBytesLength(p.elements);
    LeafRead(bytes, position, p.leaf);
  }

  lemma LeafRead(bytes: seq<byte>, position: nat, h: Hash)
    requires Unread(bytes, position, h.bytes)
    ensures position + HASH_SIZE <= |bytes| && Hash(bytes[position..position + HASH_SIZE]) == h
  {}

  /** The direction bytes that serialise writes. */
  predicate PlainDirections(bytes: seq<byte>, position: nat, n: nat)
    requires position + n * ELEMENT_BYTES <= |bytes|
  {
    forall i :: 0 <= i < n ==> DirectionAt(bytes, position, i) <= 1
  }

  function DirectionAt(bytes: seq<byte>, position: nat, i: nat): byte
    requires position + (i + 1) * ELEMENT_BYTES <= |bytes|
  {
    bytes[position + i * ELEMENT_BYTES + HASH_SIZE]
  }

  lemma {:induction false} ElementsWritten(bytes: seq<byte>, position: nat, n: nat)
    requires position + n * ELEMENT_BYTES <= |bytes|
    ensures ElementsBytes(ElementsAt(bytes, position, n)) == bytes[position..position + n * ELEMENT_BYTES]
       <==> PlainDirections(bytes, position, n)
    decreases n
  {
    hide ElementsBytes, ElementBytes, ElementsAt, ElementAt, PlainDirections, DirectionAt;
    if n == 0 {
      NothingWritten(bytes, position);
    } else {
      var next, end := position + ELEMENT_BYTES, position + n * ELEMENT_BYTES;
      var e, tail := ElementAt(bytes, position), ElementsAt(bytes, next, n - 1);
      ElementsSplit(bytes, position, n);
      ElementsBytesCons(e, tail);
      ElementsBytesLength(tail);
      ElementsWritten(bytes, next, n - 1);
      ElementWritten(bytes, position);
      PlainSplit(bytes, position, n);
      HeadAndTail(bytes[position..end], bytes[position..next], bytes[next..end], ElementBytes(e), ElementsBytes(tail));
    }
  }

  lemma NothingWritten(bytes: seq<byte>, position: nat)
    requires position <= |bytes|
    ensures ElementsBytes(ElementsAt(bytes, position, 0)) == [] && PlainDirections(bytes, position, 0)
  {}

  lemma ElementsBytesCons(e: Element, es: seq<Element>)
    ensures ElementsBytes([e] + es) == ElementBytes(e) + ElementsBytes(es)
  {
    assert ([e] + es)[1..] == es;
  }

  lemma ElementWritten(bytes: seq<byte>, position: nat)
    requires position + ELEMENT_BYTES <= |bytes|
    ensures |ElementBytes(ElementAt(bytes, position))| == ELEMENT_BYTES
    ensures ElementBytes(ElementAt(bytes, position)) == bytes[position..position + ELEMENT_BYTES]
       <==> DirectionAt(bytes, position, 0) <= 1
  {
    var e, b := ElementAt(bytes, position), bytes[position..position + ELEMENT_BYTES];
    assert ElementBytes(e)[HASH_SIZE] == if e.direction == PathLeft then 1 else 0;
    assert b == b[..HASH_SIZE] + [b[HASH_SIZE]] && b[..HASH_SIZE] == e.hash.bytes;
  }

  lemma PlainSplit(bytes: seq<byte>, position: nat, n: nat)
    requires n > 0 && position + n * ELEMENT_BYTES <= |bytes|
    ensures PlainDirections(bytes, position, n)
       <==> DirectionAt(bytes, position, 0) <= 1 && PlainDirections(bytes, position + ELEMENT_BYTES, n - 1)
  {
    var next := position + ELEMENT_BYTES;
    assert forall i :: 0 <= i < n - 1 ==> DirectionAt(bytes, next, i) == DirectionAt(bytes, position, i + 1);
    assert forall i :: 0 < i < n ==> DirectionAt(bytes, position, i) == DirectionAt(bytes, next, i - 1);
  }

  lemma HeadAndTail<T>(all: seq<T>, head: seq<T>, tail: seq<T>, a: seq<T>, b: seq<T>)
    requires all == head + tail && |a| == |head|
    ensures a + b == all <==> a == head && b == tail
  {
    if a + b == all {
      assert a == (a + b)[..|a|] && b == (a + b)[|a|..];
    }
  }

  /** Writing a path that was read gives the same bytes exactly when all direction bytes are zero or one. */
  lemma WrittenAgain(bytes: seq<byte>, position: nat)
    requires Readable(bytes, position) && PathAt(bytes, position).Some?
    ensures var p := PathAt(bytes, position).value;
      && Fits(p) && |PathBytes(p)| == HEAD_BYTES + |p.elements| * ELEMENT_BYTES
      && position + |PathBytes(p)| <= |bytes|
      && ((PathBytes(p) == bytes[position..position + |PathBytes(p)|])
          <==> PlainDirections(bytes, position + HEAD_BYTES, |p.elements|))
  {
    hide *;
    ReadParts(bytes, position);
    var p, q := PathAt(bytes, position).value, position + HEAD_BYTES;
    var end := q + |p.elements| * ELEMENT_BYTES;
    ElementsBytesLength(p.elements);
    ElementsWritten(bytes, q, |p.elements|);
    PathLength(p);
    HeadAndTail(bytes[position..end], bytes[position..q], bytes[q..end], HeadBytes(p), ElementsBytes(p.elements));
  }

  lemma PathLength(p: PathT)
    ensures PathBytes(p) == HeadBytes(p) + ElementsBytes(p.elements)
    ensures |PathBytes(p)| == HEAD_BYTES + |p.elements| * ELEMENT_BYTES
  {
    hide HeadBytes, ElementsBytes;
    ElementsBytesLength(p.elements);
  }

  /** Reading the numbers and writing them again gives the same bytes. */
  lemma ReadParts(bytes: seq<byte>, position: nat)
    requires Readable(bytes, position) && PathAt(bytes, position).Some?
    ensures var p, q := PathAt(bytes, position).value, position + HEAD_BYTES;
      && q + |p.elements| * ELEMENT_BYTES <= |bytes| && p.elements == ElementsAt(bytes, q, |p.elements|)
      && HeadBytes(p) == bytes[position..q] && Fits(p)
  {
    hide FromBigEndian, BigEndian, ElementsAt;
    var q := position + HASH_SIZE;
    U64LimitIsPow256();
    FromBigEndianRoundTrip(bytes[q..q + 8]);
    FromBigEndianRoundTrip(bytes[q + 8..q + 16]);
    FromBigEndianRoundTrip(bytes[q + 16..q + 24]);
  }

  /** An audit path is no longer than the number of leaves, so it fits the wire format. */
  lemma {:induction false} AuditPathLength(H: HashFn, i: nat, ls: seq<Hash>)
    requires i < |ls|
    ensures |AuditPath(H, i, ls)| < |ls|
    decreases |ls|
  {
    if |ls| > 1 {
      hide AuditPath, TreeHash, Split;
      var a, b, e := BranchesOf(ls);
      AuditPathBranches(H, i, a, b, e);
      if i < |a| {
        AuditPathLength(H, i, a);
      } else {
        AuditPathLength(H, i - |a|, b);
      }
    }
  }

  /** Writes a path out, reads it back, and verifies what was read. */
  method Receive(H: HashFn, p: PathT, root: Hash) returns (ok: bool)
    requires Fits(p)
    ensures ok <==> Verifies(H, p, root)
  {
    hide PathBytes;
    var bytes := Serialise(p, []);
    UnreadWhole(bytes);
    ReadWritten(bytes, 0, p);
    var received, _ := Deserialise(bytes, 0);
    ok := Verify(H, received.value, root);
  }

  lemma AuditPathVerifies(H: HashFn, ls: seq<Hash>, index: nat, p: PathT)
    requires |ls| < U64_LIMIT && index < |ls|
    requires p == PathT(ls[index], index, AuditPath(H, index, ls), |ls| - 1)
    ensures Fits(p) && Verifies(H, p, TreeHash(H, ls))
  {
    AuditPathLength(H, index, ls);
    AuditPathRoot(H, index, ls);
  }

  /** A sent proof verifies on receipt. */
  method SendAndVerify(tree: TreeT, index: nat) returns (ok: bool)
    requires tree.Valid() && tree.Abstract().WalkError(index) == None
    modifies tree`leafNodes, tree`root, tree`insertionStack, tree`frames, tree`tip, tree`uninserted, tree`pending
    modifies tree`numHash, tree.Nodes()
    ensures tree.Valid() && tree.Abstract() == old(tree.Abstract()) && ok
  {
    hide TreeT.Valid, TreeT.Nodes, TreeT.Leaves, Fits, Verifies;
    var root := tree.Root();
    var path := tree.Path(index);
    tree.ModelValid();
    AuditPathVerifies(tree.H, tree.Leaves(), index, path.value);
    assert allocated(tree.TreeObjs()) && allocated(tree.uninserted);
    ok := Receive(tree.H, path.value, root.value);
  }

  /** A leaf hash made from a vector of bytes, which throws if there are not enough and ignores what is too much. */
  function ChunkLeaf(chunk: seq<byte>): Option<Hash> {
    if |chunk| < HASH_SIZE then None else Some(Hash(chunk[..HASH_SIZE]))
  }

  predicate LongChunks(chunks: seq<seq<byte>>) {
    forall i :: 0 <= i < |chunks| ==> ChunkLeaf(chunks[i]).Some?
  }

  function ChunkLeaves(chunks: seq<seq<byte>>): (ls: seq<Hash>)
    requires LongChunks(chunks)
    ensures |ls| == |chunks|
  {
    seq(|chunks|, i requires 0 <= i < |chunks| => ChunkLeaf(chunks[i]).value)
  }

  /** The root and the path that are sent with chunk i. */
  function ChunkProof(H: HashFn, chunks: seq<seq<byte>>, i: nat): (Hash, PathT)
    requires LongChunks(chunks) && i < |chunks|
  {
    var ls := ChunkLeaves(chunks);
    (TreeHash(H, ls), PathT(ls[i], i, AuditPath(H, i, ls), |ls| - 1))
  }

  ghost predicate SameStarts(cs: seq<seq<byte>>, cs': seq<seq<byte>>)
    requires LongChunks(cs) && LongChunks(cs') && |cs| == |cs'|
  {
    forall i :: 0 <= i < |cs| ==> cs[i][..HASH_SIZE] == cs'[i][..HASH_SIZE]
  }

  /** Two lists of chunks have the same proofs exactly when the first 32 bytes of the chunks agree. */
  lemma SameProofs(H: HashFn, cs: seq<seq<byte>>, cs': seq<seq<byte>>)
    requires LongChunks(cs) && LongChunks(cs') && |cs| == |cs'|
    ensures SameStarts(cs, cs') <==> forall i :: 0 <= i < |cs| ==> ChunkProof(H, cs, i) == ChunkProof(H, cs', i)
  {
    hide TreeHash, AuditPath;
    if SameStarts(cs, cs') {
      assert ChunkLeaves(cs) == ChunkLeaves(cs');
    } else {
      var i :| 0 <= i < |cs| && cs[i][..HASH_SIZE] != cs'[i][..HASH_SIZE];
      assert ChunkProof(H, cs, i).1.leaf.bytes == cs[i][..HASH_SIZE];
      assert ChunkProof(H, cs', i).1.leaf.bytes == cs'[i][..HASH_SIZE];
    }
  }

  /** So a proof says nothing about the rest of a chunk. */
  lemma RestUnproved(H: HashFn, chunks: seq<seq<byte>>, i: nat, rest: seq<byte>)
    requires LongChunks(chunks) && i < |chunks|
    ensures var other := chunks[i := chunks[i][..HASH_SIZE] + rest];
      LongChunks(other) && forall k :: 0 <= k < |chunks| ==> ChunkProof(H, other, k) == ChunkProof(H, chunks, k)
  {
    hide ChunkProof;
    var other := chunks[i := chunks[i][..HASH_SIZE] + rest];
    assert other[i][..HASH_SIZE] == chunks[i][..HASH_SIZE];
    SameProofs(H, other, chunks);
  }
}
