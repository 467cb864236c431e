/**
 The simple model of the tree: the list of all leaf hashes and how many of them have been flushed. Every answer is
 defined on it with the tree hash and audit paths of RFC 6962.
 */
module MerkleModel {
  import opened Wrappers
  import opened Rfc6962
  import opened MerkleSettled

  /** The source's exceptions. */
  datatype Error = InvalidLeafIndex | InvalidLeafIndices | LeafIndexOutOfBounds | EmptyTree

  datatype Result<T> = Success(value: T) | Failure(error: Error)

  /** A Merkle path: PathT. */
  datatype PathT = PathT(leaf: Hash, leafIndex: nat, elements: seq<Element>, maxIndex: nat)

  /** How many leaves still wait to be inserted, and whether no insertion is under way. */
  datatype Progress = Progress(waiting: nat, settled: bool)

  datatype Model = Model(leaves: seq<Hash>, flushed: nat) {

    predicate Valid() {
      flushed == 0 || flushed < |leaves|
    }

    function MaxIndex(): nat {
      if |leaves| == 0 then 0 else |leaves| - 1
    }

    predicate InRange(index: nat) {
      flushed <= index <= MaxIndex()
    }

    /** What a walk to a leaf throws: an index out of range comes first, then an empty tree. */
    function WalkError(index: nat): Option<Error> {
      if !InRange(index) then Some(InvalidLeafIndex)
      else if leaves == [] then Some(EmptyTree)
      else None
    }

    function Root(H: HashFn): Result<Hash> {
      if leaves == [] then Failure(EmptyTree) else Success(TreeHash(H, leaves))
    }

    function Path(H: HashFn, index: nat): Result<PathT> {
      match WalkError(index)
      case Some(e) => Failure(e)
      case None => Success(PathT(leaves[index], index, AuditPath(H, index, leaves), MaxIndex()))
    }

    /** The root as it was when index was the last leaf. */
    function PastRoot(H: HashFn, index: nat): Result<Hash> {
      match WalkError(index)
      case Some(e) => Failure(e)
      case None => Success(TreeHash(H, leaves[..index + 1]))
    }

    /** The path as it was when asOf was the last leaf. */
    function PastPath(H: HashFn, index: nat, asOf: nat): Result<PathT> {
      if !InRange(index) || !InRange(asOf) || index > asOf then Failure(InvalidLeafIndices)
      else if leaves == [] then Failure(EmptyTree)
      else Success(PathT(leaves[index], index, AuditPath(H, index, leaves[..asOf + 1]), asOf))
    }

    /** The size of the current root: nothing is completed, but waiting leaves are inserted. */
    function Size(p: Progress): int {
      if leaves == [] then 0
      else if p == Progress(0, true) then 2 * |leaves| - 1
      else 2 * RootLeaves(|leaves|) - 1
    }

    function SizeProgress(p: Progress): Progress {
      if p.waiting == 0 then p else Progress(0, HalfBits(|leaves|) <= 2)
    }

    function Insert(hash: Hash): Model {
      Model(leaves + [hash], flushed)
    }

    function FlushTo(index: nat): Result<Model> {
      if index <= flushed then Success(this)
      else match WalkError(index)
        case Some(e) => Failure(e)
        case None => Success(Model(leaves, index))
    }

    /** Retracting below the waiting leaves completes the insertion first; otherwise only waiting leaves go. */
    function RetractProgress(p: Progress, index: nat): Progress
    {
      var inserted := |leaves| - p.waiting;
      if leaves == [] || index < flushed || MaxIndex() < index then p
      else if index < inserted then Progress(0, true)
      else Progress(index - inserted + 1, p.settled)
    }

    function RetractTo(index: nat): Result<Model> {
      if MaxIndex() < index then Success(this)
      else if index < flushed then Failure(LeafIndexOutOfBounds)
      else if leaves == [] then Success(this)
      else Success(Model(leaves[..index + 1], flushed))
    }
  }

  /** A path is given for every leaf that is held and has not been flushed, and leads from that leaf to the root. */
  lemma PathAnswers(H: HashFn, m: Model, index: nat)
    requires m.Valid()
    ensures var r := m.Path(H, index);
      if m.flushed <= index < |m.leaves| then
        && r.Success? && r.value.leaf == m.leaves[index] && r.value.leafIndex == index
        && r.value.maxIndex == |m.leaves| - 1
        && m.Root(H) == Success(PathRoot(H, r.value.leaf, r.value.elements)) && m.Root(H).value == TreeHash(H, m.leaves)
      else r == Failure(if m.leaves == [] && index == 0 then EmptyTree else InvalidLeafIndex)
  {
    if m.flushed <= index < |m.leaves| {
      AuditPathRoot(H, index, m.leaves);
    }
  }

  /** A past path leads to the past root, and both are given from the first leaf that has not been flushed. */
  lemma PastAnswers(H: HashFn, m: Model, index: nat, asOf: nat)
    requires m.Valid()
    ensures var (r, root) := (m.PastPath(H, index, asOf), m.PastRoot(H, asOf));
      if m.flushed <= index <= asOf < |m.leaves| then
        && r.Success? && r.value.leaf == m.leaves[index] && r.value.leafIndex == index && r.value.maxIndex == asOf
        && root == Success(PathRoot(H, r.value.leaf, r.value.elements))
        && root.value == TreeHash(H, m.leaves[..asOf + 1])
      else r == Failure(if m.leaves == [] && index == asOf == 0 then EmptyTree else InvalidLeafIndices)
    ensures m.PastRoot(H, asOf).Success? <==> m.flushed <= asOf < |m.leaves|
  {
    if m.flushed <= index <= asOf < |m.leaves| {
      AuditPathRoot(H, index, m.leaves[..asOf + 1]);
    }
  }
}
