/**
 Rebuilding a tree from its leaves: a row holds the subtrees of one level from left to right, and each level is made
 from the one below by pairing neighbours.
 */
module MerkleRow {
  import opened Wrappers
  import opened Bytes
  import opened Rfc6962
  import opened MerkleNode
  import opened MerkleCodec

  /** What a row adds up to: its leaf hashes, the nodes of its unflushed leaves, and the number of flushed ones. */
  datatype Totals = Totals(leaves: seq<Hash>, nodes: seq<Node>, flushed: nat)

  ghost function Total(row: seq<Shape>): Totals {
    if row == [] then Totals([], [], 0)
    else
      var first, rest := row[0], Total(row[1..]);
      Totals(first.Content() + rest.leaves, first.LeafObjs() + rest.nodes, first.Flushed() + rest.flushed)
  }

  ghost function Plus(a: Totals, b: Totals): Totals {
    Totals(a.leaves + b.leaves, a.nodes + b.nodes, a.flushed + b.flushed)
  }

  lemma SumsUp(t: Shape, x: Totals, y: Totals)
    ensures t.Content() + (x.leaves + y.leaves) == (t.Content() + x.leaves) + y.leaves
    ensures t.LeafObjs() + (x.nodes + y.nodes) == (t.LeafObjs() + x.nodes) + y.nodes
  {}

  lemma {:induction false} TotalConcat(a: seq<Shape>, b: seq<Shape>)
    ensures Total(a + b) == Plus(Total(a), Total(b))
  {
    hide Shape.Content, Shape.LeafObjs, Shape.Flushed;
    if a == [] {
      assert a + b == b;
    } else {
      assert (a + b)[1..] == a[1..] + b;
      TotalConcat(a[1..], b);
      SumsUp(a[0], Total(a[1..]), Total(b));
    }
  }

  lemma TotalOne(t: Shape)
    ensures Total([t]) == Totals(t.Content(), t.LeafObjs(), t.Flushed())
  {
    assert [t][1..] == [];
  }

  /** Two neighbours add up to what their common parent does. */
  lemma TotalPair(a: seq<Shape>, x: Shape, y: Shape, o: Node, b: seq<Shape>)
    ensures Total(a + [x, y] + b) == Total(a + [Fork(o, x, y)] + b)
  {
    hide Total;
    assert [x, y] == [x] + [y];
    TotalOne(x);
    TotalOne(y);
    TotalOne(Fork(o, x, y));
    TotalConcat([x], [y]);
    TotalConcat(a, [x, y]);
    TotalConcat(a, [Fork(o, x, y)]);
    TotalConcat(a + [x, y], b);
    TotalConcat(a + [Fork(o, x, y)], b);
  }

  ghost function RowObjs(row: seq<Shape>): set<Node> {
    set i, o | 0 <= i < |row| && o in row[i].Objs() :: o
  }

  /** The subtrees are apart from each other, and flushed leaves come first. */
  ghost predicate Row(row: seq<Shape>) {
    && (forall i :: 0 <= i < |row| ==> row[i].Canonical() && row[i].Distinct())
    && (forall i, j :: 0 <= i < j < |row| ==> row[i].Objs() !! row[j].Objs())
    && (forall i :: 1 <= i < |row| ==> !row[i].Pruned? && (row[i].Flushed() == 0 || (i == 1 && row[0].Pruned?)))
  }

  ghost predicate RowLinked(H: HashFn, row: seq<Shape>)
    requires Row(row)
    reads RowObjs(row)
  {
    forall i :: 0 <= i < |row| ==> row[i].Linked(H)
  }

  /** All subtrees have height k, except that the last one may be smaller. */
  ghost predicate Level(row: seq<Shape>, k: nat) {
    && (forall i :: 0 <= i < |row| ==> row[i].Height() <= k)
    && (forall i :: 0 <= i < |row| - 1 ==> row[i].Height() == k && row[i].Perfect())
  }

  ghost predicate Paired(row: seq<Shape>, k: nat) {
    forall i :: 0 <= i < |row| ==> row[i].Height() == k && row[i].Perfect()
  }

  lemma ForkOfPair(x: Shape, y: Shape, o: Node, k: nat)
    requires x.Canonical() && y.Canonical() && x.Distinct() && y.Distinct() && x.Objs() !! y.Objs()
    requires x.Height() == k && x.Perfect() && y.Height() <= k && !y.Pruned? && (x.Pruned? || y.Flushed() == 0)
    requires o !in x.Objs() && o !in y.Objs()
    ensures var t := Fork(o, x, y);
      && t.Canonical() && t.Distinct() && t.Height() == k + 1 && t.Flushed() == x.Flushed() + y.Flushed()
      && (y.Height() == k && y.Perfect() ==> t.Perfect())
  {
    hide Shape.Objs, Pow2, Shape.Count, Shape.Content;
    CountLimit(y, k);
    Bounds(Fork(o, x, y));
    if y.Height() == k && y.Perfect() {
      ForkPerfect(x, y, o, k);
    }
  }

  lemma CountLimit(t: Shape, k: nat)
    requires t.Canonical() && t.Height() <= k
    ensures k >= 1 && t.Count() <= Pow2(k - 1)
  {
    Bounds(t);
    Pow2Monotone(t.Height() - 1, k - 1);
  }

  lemma ForkPerfect(x: Shape, y: Shape, o: Node, k: nat)
    requires x.Height() == k && x.Perfect() && y.Height() == k && y.Perfect()
    ensures Fork(o, x, y).Perfect()
  {}

  ghost function Merged(a: seq<Shape>, x: Shape, y: Shape, o: Node, b: seq<Shape>): seq<Shape> {
    a + [Fork(o, x, y)] + b
  }

  /** Pairing two neighbours keeps a row. */
  lemma MergeRow(a: seq<Shape>, x: Shape, y: Shape, o: Node, b: seq<Shape>, k: nat)
    requires Row(a + [x, y] + b) && o !in RowObjs(a + [x, y] + b)
    requires x.Height() == k && x.Perfect() && y.Height() <= k
    ensures Row(Merged(a, x, y, o, b))
    ensures RowObjs(Merged(a, x, y, o, b)) == RowObjs(a + [x, y] + b) + {o}
    ensures Total(Merged(a, x, y, o, b)) == Total(a + [x, y] + b)
    ensures var t := Fork(o, x, y);
      t.Canonical() && t.Height() == k + 1 && (y.Height() == k && y.Perfect() ==> t.Perfect())
  {
    hide Shape.Canonical, Shape.Height, Shape.Perfect, Total, Shape.Distinct, Shape.Flushed, RowObjs;
    var row, row' := a + [x, y] + b, Merged(a, x, y, o, b);
    var n := |a|;
    assert row[n] == x && row[n + 1] == y;
    MergedObjs(a, x, y, o, b);
    ForkOfPair(x, y, o, k);
    TotalPair(a, x, y, o, b);
    var t := Fork(o, x, y);
    assert t.Objs() == {o} + x.Objs() + y.Objs();
    hide Shape.Objs, Merged;
    assert forall i :: 0 <= i < n ==> row'[i] == row[i];
    assert forall i :: n < i < |row'| ==> row'[i] == row[i + 1];
    assert row'[n] == t;
  }

  lemma MergedObjs(a: seq<Shape>, x: Shape, y: Shape, o: Node, b: seq<Shape>)
    ensures var row, row' := a + [x, y] + b, Merged(a, x, y, o, b);
      && RowObjs(row') == RowObjs(row) + {o}
      && (o !in RowObjs(row) ==> forall i :: 0 <= i < |row| ==> o !in row[i].Objs())
  {
    var row, row', n := a + [x, y] + b, Merged(a, x, y, o, b), |a|;
    assert Fork(o, x, y).Objs() == {o} + x.Objs() + y.Objs();
    hide Shape.Objs;
    assert row[n] == x && row[n + 1] == y && row'[n] == Fork(o, x, y);
    assert forall i :: 0 <= i < n ==> row'[i] == row[i];
    assert forall i :: n < i < |row'| ==> row'[i] == row[i + 1];
    assert forall i :: n + 1 < i < |row| ==> row[i] == row'[i - 1];
  }

  /** The subtrees that nodes stand for. */
  ghost predicate NodesOf(nodes: seq<Node>, row: seq<Shape>) {
    |nodes| == |row| && forall i :: 0 <= i < |row| ==> nodes[i] == row[i].o
  }

  ghost predicate Unpruned(row: seq<Shape>) {
    forall i :: 0 <= i < |row| ==> !row[i].Pruned?
  }

  /** Halfway through a level of height k: next has been made, and rest is still to be paired. */
  ghost predicate Pairing(H: HashFn, next: seq<Shape>, rest: seq<Shape>, k: nat)
    reads RowObjs(next + rest)
  {
    && Row(next + rest) && RowLinked(H, next + rest)
    && Unpruned(next) && Level(rest, k)
    && (rest != [] ==> Paired(next, k + 1) && !rest[|rest| - 1].Pruned?)
    && Level(next, k + 1)
  }

  lemma MergeNext(next: seq<Shape>, rest: seq<Shape>, o: Node, k: nat)
    requires Row(next + rest) && Unpruned(next) && Level(rest, k) && Paired(next, k + 1)
    requires |rest| >= 2 && !rest[|rest| - 1].Pruned? && o !in RowObjs(next + rest)
    ensures var next', rest' := next + [Fork(o, rest[0], rest[1])], rest[2..];
      && Row(next' + rest') && Total(next' + rest') == Total(next + rest)
      && RowObjs(next' + rest') == RowObjs(next + rest) + {o}
      && Unpruned(next') && Level(rest', k) && Level(next', k + 1)
      && (rest' != [] ==> Paired(next', k + 1) && !rest'[|rest'| - 1].Pruned?)
  {
    hide Shape.Perfect, Shape.Height, Row, Total, RowObjs;
    var x, y, b := rest[0], rest[1], rest[2..];
    assert next + rest == next + [x, y] + b;
    MergeRow(next, x, y, o, b, k);
    assert next + [Fork(o, x, y)] + b == Merged(next, x, y, o, b);
  }

  /** A last subtree without a neighbour goes up as it is. */
  lemma PairingEnds(H: HashFn, next: seq<Shape>, rest: seq<Shape>, k: nat)
    requires Pairing(H, next, rest, k) && |rest| == 1
    ensures next + rest + [] == next + rest && Pairing(H, next + rest, [], k)
  {
    assert next + rest + [] == next + rest;
  }

  lemma LastAlone(
    H: HashFn, level: seq<Node>, row: seq<Shape>, i: nat, made: seq<Node>, next: seq<Shape>, k: nat
  )
    requires NodesOf(level, row) && i + 1 == |level| && NodesOf(made, next) && Pairing(H, next, row[i..], k)
    ensures NodesOf(made + [level[i]], next + row[i..])
    ensures next + row[i..] + [] == next + row[i..] && Pairing(H, next + row[i..], [], k)
  {
    hide Pairing;
    PairingEnds(H, next, row[i..], k);
    NodesOfSnoc(level, row, i, made, next, level[i], row[i]);
    assert row[i..] == [row[i]];
  }

  /** One round of the loop that makes the next level. */
  method PairRound(H: HashFn, n: Node, m: Node, ghost next: seq<Shape>, ghost rest: seq<Shape>, ghost k: nat)
    returns (p: Node)
    requires Pairing(H, next, rest, k) && |rest| >= 2 && n == rest[0].o && m == rest[1].o
    ensures fresh(p)
    ensures var next', rest' := next + [Fork(p, rest[0], rest[1])], rest[2..];
      && Pairing(H, next', rest', k) && Total(next' + rest') == Total(next + rest)
      && RowObjs(next' + rest') == RowObjs(next + rest) + {p}
  {
    hide Shape.Perfect, Shape.Height, Shape.Canonical, Row, Total;
    assert allocated(RowObjs(next + rest));
    p := new Node.Inner(n, m);
    MergeNext(next, rest, p, k);
    LinkMerged(H, next, rest, p);
  }

  lemma LinkMerged(H: HashFn, next: seq<Shape>, rest: seq<Shape>, p: Node)
    requires |rest| >= 2 && Row(next + rest) && RowLinked(H, next + rest)
    requires var t := Fork(p, rest[0], rest[1]);
      && Row(next + [t] + rest[2..])
      && p.left == t.l.o && p.right == t.r.o && p.dirty
      && p.size == t.l.o.size + t.r.o.size + 1 && p.height == Max(t.l.o.height, t.r.o.height) + 1
    ensures RowLinked(H, next + [Fork(p, rest[0], rest[1])] + rest[2..])
  {
    var row, t := next + rest, Fork(p, rest[0], rest[1]);
    var row' := next + [t] + rest[2..];
    var n := |next|;
    assert row[n] == t.l && row[n + 1] == t.r && row'[n] == t;
    assert forall i :: 0 <= i < n ==> row'[i] == row[i];
    assert forall i :: n < i < |row'| ==> row'[i] == row[i + 1];
  }

  lemma NoNodes(nodes: seq<Node>, row: seq<Shape>)
    requires NodesOf(nodes, row)
    ensures |nodes| == |row| && NodesOf([], [])
  {}

  lemma NodesAt(nodes: seq<Node>, row: seq<Shape>, i: nat)
    requires NodesOf(nodes, row) && i + 1 < |nodes|
    ensures |nodes| == |row| && nodes[i] == row[i].o && nodes[i + 1] == row[i + 1].o
  {}

  lemma NodesOfSnoc(nodes: seq<Node>, row: seq<Shape>, i: nat, made: seq<Node>, next: seq<Shape>, n: Node, t: Shape)
    requires NodesOf(nodes, row) && i < |row| && NodesOf(made, next) && (n == t.o || (n == nodes[i] && t == row[i]))
    ensures NodesOf(made + [n], next + [t])
  {}

  /** The inner loop of deserialise: makes one level from the one below. */
  method PairUp(H: HashFn, level: seq<Node>, ghost row: seq<Shape>, ghost k: nat)
    returns (nextLevel: seq<Node>, ghost next: seq<Shape>)
    requires Pairing(H, [], row, k) && NodesOf(level, row)
    ensures Pairing(H, next, [], k) && NodesOf(nextLevel, next)
    ensures |next| == |nextLevel| == (|level| + 1) / 2
    ensures Total(next) == Total(row)
    ensures forall o :: o in RowObjs(next) ==> o in RowObjs(row) || fresh(o)
  {
    hide Pairing, Total, RowObjs, Row, NodesOf;
    NoNodes(level, row);
    nextLevel, next := [], [];
    ghost var rest, made: set<Node> := row, {};
    var i := 0;
    assert next + rest == row;
    while i < |level|
      invariant i == 2 * |next| <= |level| + 1 && |nextLevel| == |next|
      invariant rest == if i < |level| then row[i..] else []
      invariant Pairing(H, next, rest, k) && NodesOf(nextLevel, next)
      invariant Total(next + rest) == Total(row)
      invariant fresh(made) && RowObjs(next + rest) <= RowObjs(row) + made
    {
      if i + 1 >= |level| {
        LastAlone(H, level, row, i, nextLevel, next, k);
        nextLevel := nextLevel + [level[i]];
        next, rest := next + rest, [];
      } else {
        assert allocated(RowObjs(next + rest));
        RestAfter(row, i);
        NodesAt(level, row, i);
        var p := PairRound(H, level[i], level[i + 1], next, rest, k);
        NodesOfSnoc(level, row, i, nextLevel, next, p, Fork(p, rest[0], rest[1]));
        nextLevel, made := nextLevel + [p], made + {p};
        next, rest := next + [Fork(p, rest[0], rest[1])], rest[2..];
      }
      i := i + 2;
    }
    assert next + rest == next;
  }

  /** The row on one level of deserialise, with the first a leaves still to be restored. */
  ghost predicate Rebuilt(H: HashFn, row: seq<Shape>, k: nat, ls: seq<Hash>, nodes: seq<Node>, f: nat, a: nat)
    reads RowObjs(row)
  {
    && a <= f < |ls| && row != [] && Row(row) && RowLinked(H, row) && Level(row, k + 1) && Unpruned(row)
    && Total(row) == Totals(ls[a..], nodes, f - a)
  }

  lemma ConcatNone(row: seq<Shape>)
    ensures [] + row == row && row + [] == row
  {}

  lemma RebuiltPairs(H: HashFn, row: seq<Shape>, k: nat, ls: seq<Hash>, nodes: seq<Node>, f: nat, a: nat)
    requires Rebuilt(H, row, k, ls, nodes, f, a)
    ensures Pairing(H, [], row, k + 1)
  {
    ConcatNone(row);
  }

  lemma PairedRebuilt(H: HashFn, row: seq<Shape>, next: seq<Shape>, k: nat, ls: seq<Hash>, nodes: seq<Node>, f: nat,
                      a: nat)
    requires a <= f < |ls| && next != []
    requires Pairing(H, next, [], k + 1) && Total(next) == Totals(ls[a..], nodes, f - a)
    ensures Rebuilt(H, next, k + 1, ls, nodes, f, a)
  {
    ConcatNone(next);
  }

  ghost predicate Follows(row': seq<Shape>, p: Shape, row: seq<Shape>) {
    |row'| == |row| + 1 && row'[0] == p && forall i :: 0 <= i < |row| ==> row'[i + 1] == row[i]
  }

  lemma FollowsRow(p: Shape, row: seq<Shape>, row': seq<Shape>)
    requires Follows(row', p, row) && Row(row) && Unpruned(row)
    requires p.Pruned? && p.Canonical() && p.o !in RowObjs(row)
    ensures Row(row')
  {
    hide Shape.Canonical, Shape.Flushed;
    assert p.Objs() == {p.o} && p.Distinct();
    hide Shape.Objs, Shape.Distinct;
    assert forall i :: 0 < i < |row'| ==> row'[i] == row[i - 1];
  }

  lemma FollowsObjs(p: Shape, row: seq<Shape>, row': seq<Shape>)
    requires Follows(row', p, row) && p.Pruned?
    ensures RowObjs(row') == RowObjs(row) + {p.o}
  {
    assert p.Objs() == {p.o};
    hide Shape.Objs;
    assert forall i :: 0 < i < |row'| ==> row'[i] == row[i - 1];
  }

  lemma FollowsLevel(p: Shape, row: seq<Shape>, row': seq<Shape>, k: nat)
    requires Follows(row', p, row) && Level(row, k) && Unpruned(row) && row != [] && p.Height() == k && p.Perfect()
    ensures Level(row', k) && !row'[|row'| - 1].Pruned?
  {
    hide Shape.Height, Shape.Perfect;
    assert forall i :: 0 < i < |row'| ==> row'[i] == row[i - 1];
  }

  lemma FollowsLinked(H: HashFn, p: Shape, row: seq<Shape>, row': seq<Shape>)
    requires Follows(row', p, row) && Row(row) && Row(row') && p.Canonical() && p.Linked(H) && RowLinked(H, row)
    ensures RowLinked(H, row')
  {
    hide Row, Shape.Linked, Shape.Canonical;
    assert forall i :: 0 < i < |row'| ==> row'[i] == row[i - 1];
  }

  lemma MakePairing(H: HashFn, row: seq<Shape>, k: nat)
    requires row != [] && Row(row) && RowLinked(H, row) && Level(row, k) && !row[|row| - 1].Pruned?
    ensures Pairing(H, [], row, k)
  {
    ConcatNone(row);
  }

  lemma Prepend(H: HashFn, p: Shape, row: seq<Shape>, k: nat)
    requires row != [] && Row(row) && RowLinked(H, row) && Level(row, k) && Unpruned(row)
    requires p.Pruned? && p.Canonical() && p.Height() == k && p.Linked(H) && p.o !in RowObjs(row)
    ensures Pairing(H, [], [p] + row, k)
    ensures Total([p] + row) == Plus(Totals(p.ls, [], |p.ls|), Total(row))
    ensures RowObjs([p] + row) == RowObjs(row) + {p.o}
  {
    PrunedPerfect(p);
    hide Shape.Canonical, Shape.Height, Shape.Linked, Shape.Perfect;
    hide Total, Pairing, RowObjs, Row, RowLinked, Level, Unpruned;
    TotalOne(p);
    TotalConcat([p], row);
    assert Follows([p] + row, p, row);
    FollowsRow(p, row, [p] + row);
    FollowsObjs(p, row, [p] + row);
    FollowsLevel(p, row, [p] + row, k);
    FollowsLinked(H, p, row, [p] + row);
    MakePairing(H, [p] + row, k);
  }

  lemma PrunedPerfect(p: Shape)
    requires p.Pruned? && p.Canonical()
    ensures p.Perfect()
  {}

  lemma ExtraNode(H: HashFn, n: Node, k: nat, ls: seq<Hash>)
    requires |ls| == Pow2(k) && n.left == null && n.right == null && !n.dirty && n.hash == TreeHash(H, ls)
    requires n.height == k + 1 && n.size == Pow2(k + 1) - 1
    ensures var p := Pruned(n, k + 1, ls); p.Canonical() && p.Height() == k + 1 && p.Linked(H)
  {}

  /** The row with a subtree of flushed leaves put back in front. */
  lemma RestoreExtra(H: HashFn, row: seq<Shape>, k: nat, w: nat, ls: seq<Hash>, nodes: seq<Node>, f: nat, a: nat,
                     n: Node)
    requires Rebuilt(H, row, k, ls, nodes, f, a) && w == Pow2(k) <= a && n !in RowObjs(row)
    requires n.left == null && n.right == null && !n.dirty && n.hash == TreeHash(H, ls[a - w..a])
    requires n.height == k + 1 && n.size == Pow2(k + 1) - 1
    ensures var row' := [Pruned(n, k + 1, ls[a - w..a])] + row;
      && Pairing(H, [], row', k + 1) && Total(row') == Totals(ls[a - w..], nodes, f - (a - w))
      && RowObjs(row') == RowObjs(row) + {n}
  {
    ExtraNode(H, n, k, ls[a - w..a]);
    hide Shape.Canonical, Shape.Height, Shape.Linked, Shape.Perfect, Pow2, Pairing, Total, RowObjs;
    Prepend(H, Pruned(n, k + 1, ls[a - w..a]), row, k + 1);
    assert ls[a - w..] == ls[a - w..a] + ls[a..];
  }

  lemma RestAfter(row: seq<Shape>, i: nat)
    requires i + 1 < |row|
    ensures row[i..][0] == row[i] && row[i..][1] == row[i + 1] && |row[i..]| >= 2
    ensures row[i..][2..] == row[i + 2..] && (i + 2 == |row| ==> row[i..][2..] == [])
  {}

  /** Reading bytes at the position yields b. */
  ghost predicate Unread(bytes: seq<byte>, position: nat, b: seq<byte>) {
    position + |b| <= |bytes| && bytes[position..position + |b|] == b
  }

  lemma UnreadWhole(bytes: seq<byte>)
    ensures Unread(bytes, 0, bytes)
  {}

  lemma UnreadParts(bytes: seq<byte>, position: nat, a: seq<byte>, b: seq<byte>)
    requires Unread(bytes, position, a + b)
    ensures Unread(bytes, position, a) && Unread(bytes, position + |a|, b)
  {
    var all := bytes[position..position + |a| + |b|];
    assert all[..|a|] == a && all[|a|..] == b;
  }

  lemma UnreadHashes(bytes: seq<byte>, position: nat, h: Hash, hs: seq<Hash>)
    requires Unread(bytes, position, HashesBytes([h] + hs))
    ensures Unread(bytes, position, h.bytes) && Unread(bytes, position + HASH_SIZE, HashesBytes(hs))
  {
    HashesBytesConcat([h], hs);
    HashesBytesSnoc([], h);
    assert [] + [h] == [h];
    UnreadParts(bytes, position, h.bytes, HashesBytes(hs));
  }

  /** HashT::deserialise: None stands for the exception. */
  method ReadHash(bytes: seq<byte>, position: nat) returns (r: Option<Hash>, next: nat)
    requires position <= |bytes|
    ensures if |bytes| - position < HASH_SIZE then r == None && next == position
            else next == position + HASH_SIZE && r.Some? && Unread(bytes, position, r.value.bytes)
  {
    if |bytes| - position < HASH_SIZE {
      return None, position;
    }
    r, next := Some(Hash(bytes[position..position + HASH_SIZE])), position + HASH_SIZE;
  }

  lemma SameHash(bytes: seq<byte>, position: nat, h: Hash, h': Hash)
    requires Unread(bytes, position, h.bytes) && Unread(bytes, position, h'.bytes)
    ensures h == h'
  {}

  ghost predicate UnreadBlocks(H: HashFn, bytes: seq<byte>, position: nat, ls: seq<Hash>, q: nat, w: nat, a: nat) {
    && w >= 1 && BlocksIn(q, w, a) && a <= |ls|
    && Unread(bytes, position, HashesBytes(Blocks(H, ls, q, w, a)))
  }

  lemma OddBlocks(H: HashFn, bytes: seq<byte>, position: nat, ls: seq<Hash>, q: nat, w: nat, a: nat)
    requires UnreadBlocks(H, bytes, position, ls, q, w, a) && q % 2 == 1
    ensures w <= a && Unread(bytes, position, TreeHash(H, ls[a - w..a]).bytes)
    ensures UnreadBlocks(H, bytes, position + HASH_SIZE, ls, q / 2, 2 * w, a - w)
  {
    hide Unread, TreeHash, HashesBytes;
    UnreadHashes(bytes, position, TreeHash(H, ls[a - w..a]), Blocks(H, ls, q / 2, 2 * w, a - w));
  }

  lemma EvenBlocks(H: HashFn, bytes: seq<byte>, position: nat, ls: seq<Hash>, q: nat, w: nat, a: nat)
    requires UnreadBlocks(H, bytes, position, ls, q, w, a) && q % 2 == 0
    ensures UnreadBlocks(H, bytes, position, ls, q / 2, 2 * w, a)
  {
    hide Unread, TreeHash, HashesBytes;
    if q == 0 {
      assert Blocks(H, ls, 0, 2 * w, a) == Blocks(H, ls, 0, w, a);
    }
  }

  ghost predicate StillUnread(H: HashFn, bytes: seq<byte>, position: nat, ls: seq<Hash>, it: nat, k: nat, a: nat) {
    UnreadBlocks(H, bytes, position, ls, it, Pow2(k), a)
  }

  /** A set bit announces one hash, the one of the Pow2(k) leaves before a; a clear bit none. */
  lemma NextExtra(H: HashFn, bytes: seq<byte>, position: nat, ls: seq<Hash>, it: nat, k: nat, a: nat)
    requires StillUnread(H, bytes, position, ls, it, k, a)
    ensures it % 2 == 1 ==>
      && Pow2(k) <= a <= |ls| && Unread(bytes, position, TreeHash(H, ls[a - Pow2(k)..a]).bytes)
      && StillUnread(H, bytes, position + HASH_SIZE, ls, it / 2, k + 1, a - Pow2(k))
    ensures it % 2 == 0 ==> StillUnread(H, bytes, position, ls, it / 2, k + 1, a)
  {
    assert Pow2(k + 1) == 2 * Pow2(k);
    assert it % 2 == 1 ==> a <= |ls|;
    hide UnreadBlocks, Pow2, TreeHash, Unread;
    if it % 2 == 1 {
      OddBlocks(H, bytes, position, ls, it, Pow2(k), a);
    } else {
      EvenBlocks(H, bytes, position, ls, it, Pow2(k), a);
    }
  }

  /** The start of a round of deserialise: puts the extra node of this level in front, if there is one. */
  method RestoreLevel(H: HashFn, bytes: seq<byte>, position: nat, level: seq<Node>, it: nat, k: nat,
                      ghost row: seq<Shape>, ghost ls: seq<Hash>, ghost nodes: seq<Node>, ghost f: nat, ghost a: nat)
    returns (level': seq<Node>, position': nat, ghost row': seq<Shape>, ghost a': nat)
    requires Rebuilt(H, row, k, ls, nodes, f, a) && NodesOf(level, row)
    requires StillUnread(H, bytes, position, ls, it, k, a)
    ensures Pairing(H, [], row', k + 1) && NodesOf(level', row') && level' != []
    ensures a' <= f < |ls| && Total(row') == Totals(ls[a'..], nodes, f - a')
    ensures StillUnread(H, bytes, position', ls, it / 2, k + 1, a')
    ensures |level'| == |level| + it % 2 && position' == position + HASH_SIZE * (it % 2)
    ensures forall o :: o in RowObjs(row') ==> o in RowObjs(row) || fresh(o)
  {
    hide Pairing, Total, RowObjs, Pow2, TreeHash, StillUnread, Row, RowLinked, Level, Unpruned;
    NextExtra(H, bytes, position, ls, it, k, a);
    if it % 2 == 1 {
      var h;
      assert allocated(RowObjs(row));
      h, position' := ReadHash(bytes, position);
      var n := new Node.Leaf(h.value);
      n.height := k + 1;
      n.size := Pow2(n.height) - 1;
      a' := a - Pow2(k);
      SameHash(bytes, position, n.hash, TreeHash(H, ls[a'..a]));
      RestoreExtra(H, row, k, Pow2(k), ls, nodes, f, a, n);
      level' := [n] + level;
      row' := [Pruned(n, k + 1, ls[a'..a])] + row;
    } else {
      level', position', row', a' := level, position, row, a;
      RebuiltPairs(H, row, k, ls, nodes, f, a);
    }
  }

  /** One subtree and nothing left to restore: the tree is complete. */
  lemma LastLevel(H: HashFn, bytes: seq<byte>, position: nat, level: seq<Node>, row: seq<Shape>, k: nat, ls: seq<Hash>,
                  nodes: seq<Node>, f: nat, a: nat)
    requires Rebuilt(H, row, k, ls, nodes, f, a) && NodesOf(level, row) && |level| <= 1
    requires StillUnread(H, bytes, position, ls, 0, k, a)
    ensures |level| == 1 == |row|
    ensures var t := row[0];
      && level[0] == t.o && t.Canonical() && t.Distinct() && t.Linked(H) && !t.Pruned?
      && t.Content() == ls && t.LeafObjs() == nodes && t.Flushed() == f && t.Objs() == RowObjs(row)
  {
    assert row == [row[0]];
    TotalOne(row[0]);
    assert ls[0..] == ls;
  }

  lemma ExtrasBytes(H: HashFn, ls: seq<Hash>, f: nat)
    requires BlocksIn(f, 1, f) && f <= |ls|
    ensures |HashesBytes(Blocks(H, ls, f, 1, f))| == HASH_SIZE * BitCount(f)
  {
    BlocksCount(H, ls, f, 1, f);
  }

  /** The loop of deserialise over the levels. */
  method RebuildLevels(H: HashFn, bytes: seq<byte>, position: nat, leafNodes: seq<Node>, numFlushed: nat,
                       ghost leaves: seq<Shape>, ghost ls: seq<Hash>)
    returns (root: Node, next: nat, ghost t: Shape)
    requires Rebuilt(H, leaves, 0, ls, leafNodes, numFlushed, numFlushed) && NodesOf(leafNodes, leaves)
    requires BlocksIn(numFlushed, 1, numFlushed) && numFlushed <= |ls|
    requires StillUnread(H, bytes, position, ls, numFlushed, 0, numFlushed)
    ensures root == t.o && t.Canonical() && t.Distinct() && t.Linked(H) && !t.Pruned?
    ensures t.Content() == ls && t.LeafObjs() == leafNodes && t.Flushed() == numFlushed
    ensures forall o :: o in t.Objs() ==> o in RowObjs(leaves) || fresh(o)
    ensures next == position + |HashesBytes(Blocks(H, ls, numFlushed, 1, numFlushed))|
  {
    hide Pairing, Total, RowObjs, Rebuilt, StillUnread, NodesOf, Row;
    var level, it, levelNo := leafNodes, numFlushed, 0;
    ghost var row, a := leaves, numFlushed;
    next := position;
    while it != 0 || |level| > 1
      invariant Rebuilt(H, row, levelNo, ls, leafNodes, numFlushed, a) && NodesOf(level, row)
      invariant StillUnread(H, bytes, next, ls, it, levelNo, a)
      invariant forall o :: o in RowObjs(row) ==> o in RowObjs(leaves) || fresh(o)
      invariant next + HASH_SIZE * BitCount(it) == position + HASH_SIZE * BitCount(numFlushed)
      decreases it, |level|
    {
      assert allocated(RowObjs(row));
      level, next, row, a := RestoreLevel(H, bytes, next, level, it, levelNo, row, ls, leafNodes, numFlushed, a);
      assert allocated(RowObjs(row));
      ghost var above;
      level, above := PairUp(H, level, row, levelNo + 1);
      PairedRebuilt(H, row, above, levelNo, ls, leafNodes, numFlushed, a);
      row := above;
      it, levelNo := it / 2, levelNo + 1;
    }
    LastLevel(H, bytes, next, level, row, levelNo, ls, leafNodes, numFlushed, a);
    ExtrasBytes(H, ls, numFlushed);
    root, t := level[0], row[0];
  }

  ghost predicate LeafRow(H: HashFn, nodes: seq<Node>, row: seq<Shape>, hs: seq<Hash>)
    reads RowObjs(row)
  {
    && |row| == |hs| && NodesOf(nodes, row) && Row(row) && RowLinked(H, row)
    && (forall i :: 0 <= i < |row| ==> row[i].Leaf?)
    && Total(row) == Totals(hs, nodes, 0)
  }

  lemma LeafRowSnoc(H: HashFn, nodes: seq<Node>, row: seq<Shape>, hs: seq<Hash>, n: Node, h: Hash)
    requires LeafRow(H, nodes, row, hs) && n !in RowObjs(row)
    requires n.left == null && n.right == null && !n.dirty && n.size == 1 && n.height == 1 && n.hash == h
    ensures LeafRow(H, nodes + [n], row + [Leaf(n, h)], hs + [h])
    ensures RowObjs(row + [Leaf(n, h)]) == RowObjs(row) + {n}
  {
    hide Total;
    var t := Leaf(n, h);
    var row' := row + [t];
    assert t.Objs() == {n} && t.Canonical() && t.Distinct() && t.Flushed() == 0;
    TotalOne(t);
    TotalConcat(row, [t]);
    assert row'[|row|] == t && forall i :: 0 <= i < |row| ==> row'[i] == row[i];
  }

  lemma LeafRowRebuilt(H: HashFn, nodes: seq<Node>, row: seq<Shape>, ls: seq<Hash>, f: nat)
    requires f < |ls| && LeafRow(H, nodes, row, ls[f..])
    ensures Rebuilt(H, row, 0, ls, nodes, f, f) && NodesOf(nodes, row)
  {}

  /** The loop of deserialise over the leaves. */
  method ReadLeaves(H: HashFn, bytes: seq<byte>, position: nat, num: nat, ghost hs: seq<Hash>)
    returns (nodes: seq<Node>, next: nat, ghost row: seq<Shape>)
    requires |hs| == num && Unread(bytes, position, HashesBytes(hs))
    ensures LeafRow(H, nodes, row, hs) && next == position + HASH_SIZE * num && fresh(RowObjs(row))
  {
    hide LeafRow, RowObjs, Unread, HashesBytes;
    nodes, row, next := [], [], position;
    NoLeaves(H);
    assert hs[..0] == [] && hs[0..] == hs;
    for i := 0 to num
      invariant LeafRow(H, nodes, row, hs[..i]) && next == position + HASH_SIZE * i && fresh(RowObjs(row))
      invariant Unread(bytes, next, HashesBytes(hs[i..]))
    {
      assert hs[i..] == [hs[i]] + hs[i + 1..];
      UnreadHashes(bytes, next, hs[i], hs[i + 1..]);
      UnreadRange(bytes, next, hs[i].bytes);
      assert allocated(RowObjs(row));
      var n := new Node.Leaf(Hash(bytes[next..next + HASH_SIZE]));
      next := next + HASH_SIZE;
      LeafRowSnoc(H, nodes, row, hs[..i], n, hs[i]);
      assert hs[..i + 1] == hs[..i] + [hs[i]];
      nodes := nodes + [n];
      row := row + [Leaf(n, hs[i])];
    }
    assert hs[..num] == hs;
  }

  lemma LeafRowLength(H: HashFn, nodes: seq<Node>, row: seq<Shape>, hs: seq<Hash>)
    requires LeafRow(H, nodes, row, hs)
    ensures |nodes| == |hs|
  {}

  lemma NoLeaves(H: HashFn)
    ensures LeafRow(H, [], [], []) && RowObjs([]) == {}
  {}

  lemma UnreadRange(bytes: seq<byte>, position: nat, b: seq<byte>)
    requires Unread(bytes, position, b)
    ensures position + |b| <= |bytes| && bytes[position..position + |b|] == b
  {}

  /** The four parts of a serialised tree. */
  lemma UnreadTree(H: HashFn, bytes: seq<byte>, position: nat, ls: seq<Hash>, f: nat)
    requires f < |ls| || f == |ls| == 0
    requires |ls| < U64_LIMIT && Unread(bytes, position, TreeBytes(H, ls, f))
    ensures position + 16 <= |bytes|
    ensures FromBigEndian(bytes[position..position + 8]) == |ls| - f
    ensures FromBigEndian(bytes[position + 8..position + 16]) == f
    ensures Unread(bytes, position + 16, HashesBytes(ls[f..]))
    ensures ls == [] ==> |TreeBytes(H, ls, f)| == 16
    ensures ls != [] ==>
      && StillUnread(H, bytes, position + 16 + HASH_SIZE * (|ls| - f), ls, f, 0, f)
      && BlocksIn(f, 1, f)
      && |TreeBytes(H, ls, f)| == 16 + HASH_SIZE * (|ls| - f) + |HashesBytes(Blocks(H, ls, f, 1, f))|
  {
    hide HashesBytes, BlocksIn, Blocks, Extras, Unread, BigEndian, FromBigEndian;
    U64LimitIsPow256();
    BigEndianRoundTrip(|ls| - f, 8);
    BigEndianRoundTrip(f, 8);
    var extras := if ls == [] then [] else HashesBytes(Extras(H, ls, f));
    var a, b, c := BigEndian(|ls| - f, 8), BigEndian(f, 8), HashesBytes(ls[f..]);
    UnreadParts(bytes, position, a + b + c, extras);
    UnreadParts(bytes, position, a + b, c);
    UnreadParts(bytes, position, a, b);
    UnreadRange(bytes, position, a);
    UnreadRange(bytes, position + 8, b);
    if ls != [] {
      ExtrasAreBlocks(H, ls, f);
    }
  }
}
