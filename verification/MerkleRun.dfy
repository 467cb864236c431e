/** Whole runs: whatever is asked of a tree, in whatever order, the simple model gives the same answers. */
module MerkleRun {
  import opened Rfc6962
  import opened MerkleNode
  import opened MerkleModel
  import opened MerkleCodec
  import opened MerkleRow
  import opened MerkleSettled
  import opened MerkleForm
  import opened MerkleTree

  /** A call on the tree. Reload serialises the tree and deserialises the bytes. */
  datatype Op =
    | Insert(hash: Hash)
    | FlushTo(index: nat)
    | RetractTo(index: nat)
    | GetRoot
    | GetPath(index: nat)
    | GetPastRoot(index: nat)
    | GetPastPath(index: nat, asOf: nat)
    | GetSize
    | Reload

  datatype Answer =
    | Done(ended: Result<()>)
    | HashIs(hash: Result<Hash>)
    | PathIs(path: Result<PathT>)
    | SizeIs(size: int)

  /** The model, and how far insertion has come: only the size shows it. */
  datatype View = View(model: Model, progress: Progress)

  const COMPLETE: Progress := Progress(0, true)

  /** A call that changes the model, or fails and leaves it as it is. */
  function Change(v: View, r: Result<Model>, p: Progress): (View, Answer) {
    match r
    case Success(m') => (View(m', p), Done(Success(())))
    case Failure(e) => (v, Done(Failure(e)))
  }

  /** What a question leaves behind: one that comes to compute the root completes the insertion. */
  function Asked(v: View, computes: bool): View {
    if computes then View(v.model, COMPLETE) else v
  }

  /** What the model answers, and what becomes of it. */
  function Apply(H: HashFn, v: View, op: Op): (View, Answer) {
    var m, p := v.model, v.progress;
    match op
    case Insert(hash) => (View(m.Insert(hash), Progress(p.waiting + 1, p.settled)), Done(Success(())))
    case FlushTo(index) => Change(v, m.FlushTo(index), if index <= m.flushed then p else COMPLETE)
    case RetractTo(index) => Change(v, m.RetractTo(index), m.RetractProgress(p, index))
    case GetRoot => (Asked(v, true), HashIs(m.Root(H)))
    case GetPath(index) => (Asked(v, m.InRange(index)), PathIs(m.Path(H, index)))
    case GetPastRoot(index) => (Asked(v, m.InRange(index)), HashIs(m.PastRoot(H, index)))
    case GetPastPath(index, asOf) =>
      (Asked(v, m.InRange(index) && m.InRange(asOf) && index <= asOf), PathIs(m.PastPath(H, index, asOf)))
    case GetSize => (View(m, m.SizeProgress(p)), SizeIs(m.Size(p)))
    case Reload => (Asked(v, true), Done(Success(())))
  }

  function ApplyAll(H: HashFn, v: View, ops: seq<Op>): (View, seq<Answer>) {
    if ops == [] then (v, [])
    else
      var (v', answers) := ApplyAll(H, v, ops[..|ops| - 1]);
      var (v'', answer) := Apply(H, v', ops[|ops| - 1]);
      (v'', answers + [answer])
  }

  lemma ApplySnoc(H: HashFn, v: View, ops: seq<Op>, op: Op)
    ensures var (v', answers) := ApplyAll(H, v, ops);
      var (v'', answer) := Apply(H, v', op);
      ApplyAll(H, v, ops + [op]) == (v'', answers + [answer])
  {
    assert (ops + [op])[..|ops|] == ops;
  }

  /** The tree never holds more leaves than its heights allow. */
  ghost predicate Bounded(H: HashFn, v: View, ops: seq<Op>) {
    forall i :: 0 <= i <= |ops| ==> |ApplyAll(H, v, ops[..i]).0.model.leaves| <= MAX_LEAVES
  }

  lemma InsertGrows(H: HashFn, v: View, ops: seq<Op>, i: nat)
    requires Bounded(H, v, ops) && i < |ops| && ops[i].Insert?
    ensures |ApplyAll(H, v, ops[..i]).0.model.leaves| < MAX_LEAVES
  {
    assert ops[..i + 1] == ops[..i] + [ops[i]];
    ApplySnoc(H, v, ops[..i], ops[i]);
  }

  ghost function ViewOf(tree: TreeT): View
    reads tree
  {
    View(tree.Abstract(), tree.Progress())
  }

  method SerialiseAndDeserialise(tree: TreeT)
    requires tree.Valid()
    modifies tree, tree.Nodes()
    ensures tree.Valid() && tree.Abstract() == old(tree.Abstract()) && tree.Progress() == COMPLETE
    ensures forall o :: o in tree.Nodes() ==> o in old(tree.Nodes()) || fresh(o)
  {
    hide TreeT.Valid, TreeT.Nodes, TreeT.Leaves, TreeBytes, Unread;
    var bytes := tree.Serialise([]);
    tree.ModelValid();
    UnreadWhole(bytes);
    var _ := tree.Deserialise(bytes, 0, tree.Leaves(), tree.numFlushed);
  }

  lemma SameTreeForm(tree: TreeT, other: TreeT)
    requires tree.Valid() && tree.Settled() && tree.pending == [] && tree.tip.Some?
    requires other.Valid() && other.Settled() && other.pending == [] && other.tip.Some?
    requires tree.Abstract() == other.Abstract()
    ensures FormOf(tree.tip.value) == FormOf(other.tip.value)
  {
    tree.SettledTree();
    other.SettledTree();
    FormUnique(tree.tip.value, other.tip.value);
  }

  /** Sending a tree: the receiver rebuilds a tree of the same form over the same leaves, flushed as far. */
  method Send(tree: TreeT, other: TreeT)
    requires tree.Valid() && other != tree && other.H == tree.H
    modifies tree, tree.Nodes(), other
    ensures other.Valid() && other.Abstract() == old(tree.Abstract()) && tree.Valid()
    ensures tree.Leaves() != [] ==>
      tree.tip.Some? && other.tip.Some? && FormOf(other.tip.value) == FormOf(tree.tip.value)
  {
    hide TreeT.Valid, TreeT.Nodes, TreeT.Leaves, TreeBytes, Unread;
    var bytes := tree.Serialise([]);
    tree.ModelValid();
    UnreadWhole(bytes);
    assert allocated(tree.TreeObjs()) && allocated(tree.uninserted);
    var _ := other.Deserialise(bytes, 0, tree.Leaves(), tree.numFlushed);
    other.NothingPending();
    if tree.Leaves() != [] {
      SameTreeForm(tree, other);
    }
  }

  /** Sending a segment: the root of the receiver's tree is the past root as of the last leaf of the segment. */
  method SendSegment(tree: TreeT, other: TreeT, from: nat, to: nat) returns (root: Result<Hash>)
    requires tree.Valid() && other != tree && other.H == tree.H && tree.Leaves() != []
    requires tree.Abstract().InRange(from) && tree.Abstract().InRange(to) && from <= to
    modifies tree, tree.Nodes(), other
    ensures other.Valid() && other.Leaves() == old(tree.Leaves())[..to + 1] && other.numFlushed == from
    ensures root == old(tree.Abstract()).PastRoot(tree.H, to)
  {
    hide TreeT.Valid, TreeT.Nodes, TreeT.Leaves, TreeBytes, Unread, TreeHash;
    tree.ModelValid();
    var r, bytes := tree.SerialiseSegment(from, to, []);
    ghost var ls := tree.Leaves()[..to + 1];
    UnreadWhole(bytes);
    var _ := other.Deserialise(bytes, 0, ls, from);
    root := other.Root();
  }

  method Call(tree: TreeT, op: Op) returns (answer: Answer)
    requires tree.Valid() && (op.Insert? ==> |tree.Leaves()| < MAX_LEAVES)
    modifies tree, tree.Nodes()
    ensures tree.Valid()
    ensures (ViewOf(tree), answer) == Apply(tree.H, old(ViewOf(tree)), op)
    ensures forall o :: o in tree.Nodes() ==> o in old(tree.Nodes()) || fresh(o)
  {
    hide TreeT.Valid, TreeT.Nodes, TreeT.Leaves;
    match op
    case Insert(hash) =>
      tree.Insert(hash);
      answer := Done(Success(()));
    case FlushTo(index) =>
      var r := tree.FlushTo(index);
      answer := Done(r);
    case RetractTo(index) =>
      var r := tree.RetractTo(index);
      answer := Done(r);
    case GetRoot =>
      var r := tree.Root();
      answer := HashIs(r);
    case GetPath(index) =>
      var r := tree.Path(index);
      answer := PathIs(r);
    case GetPastRoot(index) =>
      var r := tree.PastRoot(index);
      answer := HashIs(r);
    case GetPastPath(index, asOf) =>
      var r := tree.PastPath(index, asOf);
      answer := PathIs(r);
    case GetSize =>
      var size := tree.Size();
      answer := SizeIs(size);
    case Reload =>
      SerialiseAndDeserialise(tree);
      answer := Done(Success(()));
  }

  /** Every answer of a run is that of the model, as long as the tree never holds too many leaves. */
  method Run(tree: TreeT, ops: seq<Op>) returns (answers: seq<Answer>)
    requires tree.Valid() && Bounded(tree.H, ViewOf(tree), ops)
    modifies tree, tree.Nodes()
    ensures tree.Valid()
    ensures (ViewOf(tree), answers) == ApplyAll(tree.H, old(ViewOf(tree)), ops)
  {
    hide TreeT.Valid, TreeT.Nodes, Apply, Bounded;
    answers := [];
    assert ops[..0] == [];
    ghost var v := ViewOf(tree);
    for i := 0 to |ops|
      invariant tree.Valid() && (ViewOf(tree), answers) == ApplyAll(tree.H, v, ops[..i])
      invariant forall o :: o in tree.Nodes() ==> o in old(tree.Nodes()) || fresh(o)
    {
      ApplySnoc(tree.H, v, ops[..i], ops[i]);
      if ops[i].Insert? {
        InsertGrows(tree.H, v, ops, i);
      }
      assert ops[..i + 1] == ops[..i] + [ops[i]];
      var answer := Call(tree, ops[i]);
      answers := answers + [answer];
    }
    assert ops[..|ops|] == ops;
  }

  /** The call stays away from leaves before f, and does not ask for the size, which shows what has been completed. */
  predicate StaysAbove(op: Op, f: nat) {
    match op
    case GetSize => false
    case GetPath(index) => index >= f
    case GetPastRoot(index) => index >= f
    case GetPastPath(index, _) => index >= f
    case RetractTo(index) => index >= f
    case _ => true
  }

  /** Every call of the run stays above what is flushed when it comes. */
  predicate InView(H: HashFn, v: View, ops: seq<Op>) {
    ops != [] ==>
      var before := ops[..|ops| - 1];
      InView(H, v, before) && StaysAbove(ops[|ops| - 1], ApplyAll(H, v, before).0.model.flushed)
  }

  /** The same leaves, flushed at least as far on the right. */
  predicate FlushedFurther(m: Model, m': Model) {
    m.leaves == m'.leaves && m.flushed <= m'.flushed && m.Valid() && m'.Valid()
  }

  lemma SameAnswer(H: HashFn, v: View, v': View, op: Op)
    requires FlushedFurther(v.model, v'.model) && StaysAbove(op, v'.model.flushed)
    ensures var (n, a), (n', a') := Apply(H, v, op), Apply(H, v', op);
      a == a' && FlushedFurther(n.model, n'.model)
  {}

  /**
   Flushing changes no answer above the flushed leaves, not now and not after any further calls: two trees over the
   same leaves, one flushed further than the other, answer alike.
   */
  lemma {:induction false} FlushingIsInvisible(H: HashFn, v: View, v': View, ops: seq<Op>)
    requires FlushedFurther(v.model, v'.model) && InView(H, v', ops)
    ensures var (n, answers), (n', answers') := ApplyAll(H, v, ops), ApplyAll(H, v', ops);
      answers == answers' && FlushedFurther(n.model, n'.model)
  {
    if ops != [] {
      hide Apply, FlushedFurther;
      var before := ops[..|ops| - 1];
      FlushingIsInvisible(H, v, v', before);
      SameAnswer(H, ApplyAll(H, v, before).0, ApplyAll(H, v', before).0, ops[|ops| - 1]);
    }
  }

  /** A past path is what an equal tree gives once it is retracted to that leaf, and likewise a past root. */
  method PastMeetsRetracted(tree: TreeT, other: TreeT, index: nat, asOf: nat)
    returns (past: Result<PathT>, pastRoot: Result<Hash>, path: Result<PathT>, root: Result<Hash>)
    requires tree.Valid() && other.Valid() && tree != other && tree.H == other.H && tree.Nodes() !! other.Nodes()
    requires tree.Abstract() == other.Abstract()
    requires tree.Abstract().InRange(index) && tree.Abstract().InRange(asOf) && index <= asOf
    modifies tree, tree.Nodes(), other, other.Nodes()
    ensures past == path && pastRoot == root
    ensures old(tree.Abstract()).leaves != [] ==> past.Success? && pastRoot.Success?
  {
    hide *;
    other.NodeParts();
    ghost var nodes := other.Nodes();
    assert allocated(nodes);
    assert forall n: Node :: n in nodes ==> n as object != tree;
    past, pastRoot := AskPast(tree, index, asOf);
    path, root := RetractAndAsk(other, index, asOf);
    RetractedAnswers(tree.H, old(tree.Abstract()), index, asOf);
  }

  method AskPast(tree: TreeT, index: nat, asOf: nat) returns (path: Result<PathT>, root: Result<Hash>)
    requires tree.Valid()
    modifies tree, tree.Nodes()
    ensures path == old(tree.Abstract()).PastPath(tree.H, index, asOf)
    ensures root == old(tree.Abstract()).PastRoot(tree.H, asOf)
  {
    hide *;
    path := tree.PastPath(index, asOf);
    root := tree.PastRoot(asOf);
  }

  method RetractAndAsk(tree: TreeT, index: nat, asOf: nat) returns (path: Result<PathT>, root: Result<Hash>)
    requires tree.Valid() && tree.Abstract().InRange(asOf)
    modifies tree, tree.Nodes()
    ensures var m := old(tree.Abstract()).RetractTo(asOf);
      m.Success? && path == m.value.Path(tree.H, index) && root == m.value.Root(tree.H)
  {
    hide *;
    InRangeRetracts(tree.Abstract(), asOf);
    var retracted := tree.RetractTo(asOf);
    path := tree.Path(index);
    root := tree.Root();
  }

  lemma InRangeRetracts(m: Model, asOf: nat)
    requires m.InRange(asOf)
    ensures m.RetractTo(asOf).Success?
  {}

  lemma RetractedAnswers(H: HashFn, m: Model, index: nat, asOf: nat)
    requires m.InRange(index) && m.InRange(asOf) && index <= asOf
    ensures var kept := m.RetractTo(asOf);
      && kept.Success? && (m.leaves != [] ==> m.PastPath(H, index, asOf).Success? && m.PastRoot(H, asOf).Success?)
      && m.PastPath(H, index, asOf) == kept.value.Path(H, index) && m.PastRoot(H, asOf) == kept.value.Root(H)
  {}

  /** Nothing in the run takes leaf i away. */
  predicate Keeps(ops: seq<Op>, i: nat) {
    forall k :: 0 <= k < |ops| ==> ops[k].RetractTo? ==> ops[k].index >= i
  }

  lemma {:induction false} PrefixKept(H: HashFn, v: View, ops: seq<Op>, i: nat)
    requires v.model.Valid() && i < |v.model.leaves| && Keeps(ops, i)
    ensures var n := ApplyAll(H, v, ops).0.model;
      n.Valid() && i < |n.leaves| && n.leaves[..i + 1] == v.model.leaves[..i + 1]
  {
    if ops != [] {
      hide Apply, Model.Valid;
      var before := ops[..|ops| - 1];
      PrefixKept(H, v, before, i);
      PrefixStep(H, ApplyAll(H, v, before).0, ops[|ops| - 1], i);
      var m, n := ApplyAll(H, v, before).0.model, ApplyAll(H, v, ops).0.model;
      assert n.leaves[..i + 1] == m.leaves[..i + 1];
    }
  }

  lemma PrefixStep(H: HashFn, v: View, op: Op, i: nat)
    requires v.model.Valid() && i < |v.model.leaves| && (op.RetractTo? ==> op.index >= i)
    ensures var n := Apply(H, v, op).0.model;
      n.Valid() && i < |n.leaves| && n.leaves[..i + 1] == v.model.leaves[..i + 1]
  {
    hide TreeHash, AuditPath, RootLeaves, HalfBits;
  }

  /** The root of today can still be asked for later, as the past root of the leaf that is last today. */
  lemma RootRemembered(H: HashFn, v: View, ops: seq<Op>)
    requires v.model.Valid() && v.model.leaves != [] && Keeps(ops, v.model.MaxIndex())
    ensures var n := ApplyAll(H, v, ops).0.model;
      n.flushed <= v.model.MaxIndex() ==> n.PastRoot(H, v.model.MaxIndex()) == v.model.Root(H)
    ensures var n := ApplyAll(H, v, ops).0;
      n.model.flushed <= v.model.MaxIndex() ==>
        Apply(H, n, GetPastRoot(v.model.MaxIndex())).1 == Apply(H, v, GetRoot).1
  {
    hide RootLeaves, HalfBits, TreeHash, AuditPath;
    PrefixKept(H, v, ops, v.model.MaxIndex());
    assert v.model.leaves[..|v.model.leaves|] == v.model.leaves;
  }

  /** An inserted leaf answers under its index after any run that keeps it and does not flush past it. */
  lemma InsertRemembered(H: HashFn, v: View, hash: Hash, ops: seq<Op>)
    requires v.model.Valid() && Keeps(ops, |v.model.leaves|)
    ensures var k, n := |v.model.leaves|, ApplyAll(H, Apply(H, v, Insert(hash)).0, ops).0;
      n.model.flushed <= k ==>
        var answer := Apply(H, n, GetPath(k)).1;
        answer.PathIs? && answer.path.Success? && answer.path.value.leaf == hash
  {
    var k, w := |v.model.leaves|, Apply(H, v, Insert(hash)).0;
    FlushedStep(H, v, Insert(hash));
    PrefixKept(H, w, ops, k);
    var n := ApplyAll(H, w, ops).0;
    hide ApplyAll, TreeHash, AuditPath, RootLeaves, HalfBits;
    assert n.model.leaves[..k + 1][k] == w.model.leaves[..k + 1][k] == hash;
  }

  lemma {:induction false} FlushedStays(H: HashFn, v: View, ops: seq<Op>)
    requires v.model.Valid()
    ensures var n := ApplyAll(H, v, ops).0.model; n.Valid() && n.flushed >= v.model.flushed
  {
    if ops != [] {
      hide Apply, Model.Valid;
      var before := ops[..|ops| - 1];
      FlushedStays(H, v, before);
      FlushedStep(H, ApplyAll(H, v, before).0, ops[|ops| - 1]);
    }
  }

  lemma FlushedStep(H: HashFn, v: View, op: Op)
    requires v.model.Valid()
    ensures var n := Apply(H, v, op).0.model; n.Valid() && n.flushed >= v.model.flushed
  {
    hide TreeHash, AuditPath, RootLeaves, HalfBits;
  }

  predicate Refused(a: Answer) {
    (a.PathIs? && a.path.Failure?) || (a.HashIs? && a.hash.Failure?)
  }

  /**
   After a successful flush to f no later call gives a path or a past root for a leaf before f, whatever happens in
   between; and leaf f itself still answers at once.
   */
  lemma FlushRemembered(H: HashFn, v: View, f: nat, ops: seq<Op>, i: nat, asOf: nat)
    requires v.model.Valid() && i < f && Apply(H, v, FlushTo(f)).1 == Done(Success(()))
    ensures var n := ApplyAll(H, Apply(H, v, FlushTo(f)).0, ops).0;
      && Refused(Apply(H, n, GetPath(i)).1) && Refused(Apply(H, n, GetPastRoot(i)).1)
      && Refused(Apply(H, n, GetPastPath(i, asOf)).1)
    ensures v.model.flushed <= f ==>
      var answer := Apply(H, Apply(H, v, FlushTo(f)).0, GetPath(f)).1;
      f < |v.model.leaves| && answer.PathIs? && answer.path.Success? && answer.path.value.leaf == v.model.leaves[f]
  {
    hide TreeHash, AuditPath, RootLeaves, HalfBits, ApplyAll;
    var w := Apply(H, v, FlushTo(f)).0;
    FlushedStep(H, v, FlushTo(f));
    FlushedStays(H, w, ops);
  }

  /** Fourteen leaves, inserted and not completed. */
  method InsertFourteen(H: HashFn, hash: Hash) returns (tree: TreeT)
    ensures tree.Valid() && tree.H == H && |tree.Leaves()| == 14 && tree.uninserted != [] && tree.numFlushed == 0
    ensures fresh(tree) && fresh(tree.Nodes())
  {
    hide TreeT.Valid, TreeT.Nodes;
    tree := new TreeT(H);
    for i := 0 to 14
      invariant tree.Valid() && |tree.Leaves()| == i && fresh(tree) && fresh(tree.Nodes())
      invariant (i > 0 ==> tree.uninserted != []) && tree.numFlushed == 0
    {
      tree.Insert(hash);
    }
  }

  /** Fourteen leaves make 27 nodes, but size finds 11 of them: the root covers the last six leaves only. */
  method SizeOfFourteen(H: HashFn, hash: Hash) returns (size: nat)
    ensures size == 11
  {
    hide TreeT.Valid, TreeT.Nodes, TreeT.Leaves;
    var tree := InsertFourteen(H, hash);
    assert RootLeaves(14) == 6;
    size := tree.Size();
  }

  /** A copy made then is a consistent tree over the last six leaves, although size told that nodes are missing. */
  method CopyOfFourteen(H: HashFn, hash: Hash) returns (size: nat, leaves: nat, copied: nat)
    ensures size != 2 * 14 - 1 && leaves == 14 && copied == 6
  {
    hide TreeT.Valid, TreeT.Nodes;
    var tree := InsertFourteen(H, hash);
    assert RootLeaves(14) == 6 && HalfBits(14) == 3;
    size := tree.Size();
    tree.NothingPending();
    tree.NumLeavesIsCount();
    leaves := tree.NumLeaves();
    assert allocated(tree.TreeObjs()) && allocated(tree.uninserted);
    var copy := new TreeT(H);
    copy.Assign(tree);
    copy.NumLeavesIsCount();
    copied := copy.NumLeaves();
  }

  /** No leaf waits after size, and yet assigning the tree to itself keeps six of the fourteen leaves. */
  method SelfAssignmentOfFourteen(H: HashFn, hash: Hash) returns (before: nat, waiting: nat, after: nat)
    ensures before == 14 && waiting == 0 && after == 6
  {
    hide TreeT.Valid, TreeT.Nodes;
    var tree := InsertFourteen(H, hash);
    assert RootLeaves(14) == 6 && HalfBits(14) == 3;
    var _ := tree.Size();
    tree.NothingPending();
    tree.NumLeavesIsCount();
    before, waiting := tree.NumLeaves(), |tree.uninserted|;
    tree.AssignToItself();
    tree.NumLeavesIsCount();
    after := tree.NumLeaves();
  }
}
