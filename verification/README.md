# Verification of the DRG building blocks

This project models four parts of the repository and proves properties of them with Dafny 4.11:

1. **The incremental Merkle tree** (`include/merklecpp.h`, classes `TreeT` and `PathT`). `MerkleTree.TreeT` is a class
   over heap nodes that inserts lazily through an insertion stack, hashes dirty nodes, cuts subtrees on the left,
   overwrites nodes on the right, answers questions about the past, and reads and writes the wire format. The simple
   model (`MerkleModel`) is the list of all leaf hashes and the number of flushed ones, with the tree hash of section
   2.1 and the audit paths of section 2.1.1 of RFC 6962 (without the 0x00 and 0x01 prefixes). Every method is tied to
   the model, error cases included, and `MerkleRun.Run` does so for every sequence of calls under which the tree never
   holds more than 2^29 leaves; there the model also keeps how many leaves wait and whether an insertion has been left
   unfinished, which `size` shows. The hash function is an arbitrary binary function.
2. **The PVSS algebra** (`include/pvss`): the prime field with proved inverses, polynomials, the dual-code degree test
   as a divided difference, Lagrange interpolation at zero, the proofs of knowledge, aggregation, decryption,
   reconstruction, agreement for arbitrary aggregates, and an honest run from end to end. Elements of G1, G2 and GT
   are their exponents, the reduced pairing multiplies exponents, hashing to a challenge is an arbitrary function of
   what is hashed, and everything the source draws at random is a parameter.
3. **Streaming SHA-256** (`include/pvss/internal/picosha.h`) and the one-block `sha256_compress` of merklecpp, both
   proved against sections 4.1.2, 4.2.2, 5.1.1, 5.3.3 and 6.2.2 of FIPS 180-4. `Sha256Constants` proves the constants
   from the roots of the first primes, and `Sha256Example` works out the digest of "abc".
4. **The erasure framing** (`include/erasure.h`): padding, splitting and trimming around an ideal erasure code.

How the Merkle proofs are organised: `MerkleNode` has the heap nodes and immutable shapes that name the node at each
position; `MerkleShape` says what inserting, retracting and flushing do to shapes; `MerkleZipper` plugs the current
root back into the frames on the insertion stack; `MerkleLocal` looks at a linked heap node by node for hashing;
`MerkleWalk`, `MerkleTrace`, `MerklePast`, `MerkleFlush` and `MerkleRetract` hold the loop states of the walks;
`MerkleCodec`, `MerkleRow` and `MerkleForm` those of writing, rebuilding and copying trees; `MerkleSettled` says when
an insertion is left unfinished and how many leaves the current root then covers.

Results about the code that differ from its comments:

- `size` is documented as the number of nodes in the tree, but it reads the current root without completing an
  insertion. `MerkleTree.TreeT.Size` gives the exact value for every state: when leaves were waiting or an insertion
  was under way, the root covers `RootLeaves(n)` of the n leaves, the number made of the two lowest set bits of n / 2
  and the lowest bit of n, which is less than n exactly when n / 2 has more than two set bits. `MerkleRun.SizeOfFourteen` is the first failure: 11, not 27.
- `operator=` copies the current root and drops the insertion stack, so with an insertion under way the copy has only
  the last `RootLeaves(n)` of the n inserted leaves, and the waiting ones. `MerkleTree.TreeT.Assign` states for every
  tree what the copy holds, and that it is an equal tree exactly when no insertion is under way. A caller can tell
  beforehand: a nonempty tree is copied whole exactly when `size() == 2 * num_leaves() - 1`, asked first.
  `MerkleRun.CopyOfFourteen` makes a copy with six of fourteen leaves.
- A tree assigned to itself loses the waiting leaves as well: it keeps all leaves exactly when none wait and no insertion
  is under way (`MerkleTree.TreeT.AssignToItself`). `MerkleRun.SelfAssignmentOfFourteen` is a tree with no waiting leaf
  that keeps six of fourteen.
- `PathT::serialised_size` counts four bytes for the direction of an element and leaves out the three numbers, so it is
  the number of bytes that `serialise` writes exactly for paths of eight elements (`MerklePath.SerialisedSizeRight`).
- `aggregate` lets there be more ids than sharings, but `verify_aggregation` then rejects the result;
  `PvssContext.AggregateAccepted` gives the exact condition, and `PvssContext.SurplusId` rejected aggregates.
- `verify_decryption` sees no public key, so a decryption under any nonzero key passes (`Pvss.DecryptionUnderAnyKey`).
  The check that notices is that of `verify_beacon` (`PvssAggregate.BeaconDecides`).
- A chunk becomes a leaf by its first 32 bytes alone, so a verified proof says nothing about the rest of a chunk
  (`MerklePath.RestUnproved`).
- The segment form of `serialise` on an empty tree writes two counts before it throws, as
  `MerkleTree.TreeT.SerialiseSegment` states.

## Model

| member | source | states |
|---|---|---|
| Bytes.SerialiseU64 | include/merklecpp.h:71-77 | appends the eight big-endian bytes of a number below 2^64 |
| Bytes.DeserialiseU64 | include/merklecpp.h:79-87 | reads eight bytes back as a big-endian number and advances the position |
| Bytes.BigEndianRoundTrip | include/merklecpp.h:71-87 | reading what was written gives the number back, for every number that fits the width |
| Bytes.FirstByteHighest | include/merklecpp.h:79-87 | of the bytes of a number the first weighs most |
| Rfc6962.AuditPathRoot | include/merklecpp.h:1015-1031 | hashing a leaf along its audit path gives the tree hash, for every list of leaves and every index |
| Rfc6962.AuditPathPastRoot | include/merklecpp.h:937-955 | folding only the left elements of the path of a leaf gives the tree hash over the leaves up to that one |
| Rfc6962.TreeHashBranches | include/merklecpp.h:1629-1679 | the tree hash of a full left part and a right part no larger is the hash of their tree hashes, in this order |
| Rfc6962.TreeHashOfThree | include/merklecpp.h:1629-1679 | the tree hashes of one, two and three leaves, written out |
| MerkleModel.PathAnswers | include/merklecpp.h:1015-1031 | which indices have a path, with its leaf, its indices and its root, and the exception for every other |
| MerkleModel.PastAnswers | include/merklecpp.h:1033-1202 | which pairs of indices have a past path, that it leads to the past root, and the exception for all others |
| MerkleNode.Node.UpdateSizes | include/merklecpp.h:637-646 | size and height follow from the children |
| MerkleNode.FullIsPerfect | include/merklecpp.h:629-634 | in a canonical tree the size test of is_full holds exactly when the leaves below fill a power of two |
| MerkleNode.RootIsTreeHash | include/merklecpp.h:1629-1679 | the recursive hash of a canonical tree, cut subtrees included, is the RFC 6962 tree hash of all its leaves |
| MerkleZipper.PlugCanonical | include/merklecpp.h:1686-1771 | whatever is plugged into frames to give a canonical tree is canonical itself, and no larger |
| MerkleZipper.InsertPlug | include/merklecpp.h:1686-1721 | inserting a leaf into the current root and plugging is inserting it into the whole tree |
| MerkleShape.InsertCanonical | include/merklecpp.h:1686-1771 | inserting keeps a tree canonical (every left subtree perfect and at least as large as its sibling) and appends one leaf |
| MerkleTree.LeftIsFull | include/merklecpp.h:1709-1718 | the test for turning left at a node never holds in a canonical tree |
| MerkleTree.TreeT.ContinueInsertionStack | include/merklecpp.h:1686-1721 | goes down the right edge to the first full subtree, pushing what it passes, and pairs that subtree with the new leaf; plugging the result gives the tree before |
| MerkleTree.TreeT.ProcessInsertionStack | include/merklecpp.h:1726-1771 | hangs subtrees together up to the first one that is not full, or all: the plugged tree stays the same, a full result leaves no frames, and the result is dirty |
| MerkleTree.TreeT.InsertLeaf | include/merklecpp.h:1776-1790 | the plugged tree grows by exactly the new leaf and the heap stays linked to it |
| MerkleTree.TreeT.InsertLeaves | include/merklecpp.h:1795-1809 | all waiting leaves are inserted in order; completing leaves no frames |
| MerkleTree.TreeT.Insert | include/merklecpp.h:745-752 | appends the hash to the leaves of the model without touching the tree |
| MerkleRun.InsertRemembered | include/merklecpp.h:745-752 | an inserted hash is the leaf of the path at its index, after any run that keeps it and does not flush past it |
| MerkleLocal.CleanBelow | include/merklecpp.h:1629-1664 | below a clean node nothing is dirty |
| MerkleTree.TreeT.HashNode | include/merklecpp.h:1629-1664 | the explicit-stack loop ends with every node linked and clean, and hashes each dirty node exactly once |
| MerkleTree.TreeT.ComputeRoot | include/merklecpp.h:1667-1680 | leaves a settled, clean tree with the same leaves, or fails on an empty tree |
| MerkleTree.TreeT.Leaf | include/merklecpp.h:1381-1391 | the leaf hash of the model at an index that has not been flushed, inserted or still waiting, or an error |
| MerkleTree.TreeT.Root | include/merklecpp.h:918-929 | the RFC 6962 tree hash of all leaves, flushed ones included |
| MerkleWalk.WalkStep | include/merklecpp.h:981-999 | at a node of the current height the top bit of the shifted index says which child holds the leaf; at a lower node it is clear |
| MerkleTree.TreeT.WalkTo | include/merklecpp.h:964-1010 | the walk by index bits, skipping heights the right edge does not have, visits exactly the nodes above the leaf; out of range and empty trees fail in that order |
| MerkleShape.ElementsAreAuditPath | include/merklecpp.h:1015-1031 | the siblings met on the way to a leaf are its audit path |
| MerkleTree.TreeT.Path | include/merklecpp.h:1015-1031 | the audit path of the index over all leaves, or the error of the model |
| MerkleTree.TreeT.PastRoot | include/merklecpp.h:937-955 | the tree hash over the leaves up to the index |
| MerklePast.PastFork | include/merklecpp.h:1040-1202 | where the two walks part, the rest of the path is that below the fork with the recomputed hash in front |
| MerkleTree.TreeT.PastPath | include/merklecpp.h:1040-1202 | the audit path of the index in the tree over the first as_of + 1 leaves, or the error of the model |
| MerkleShape.FlushCanonical | include/merklecpp.h:774-803 | cutting what lies wholly before an index keeps the leaves and the canonical form and makes the index the number of flushed leaves |
| MerkleShape.FlushRoot | include/merklecpp.h:774-803 | cutting changes no hash |
| MerkleTree.TreeT.FlushTo | include/merklecpp.h:774-803 | the number of flushed leaves becomes the index if it was smaller, the leaves stay, and the call fails exactly for an index past the end |
| MerkleRun.FlushRemembered | include/merklecpp.h:774-803 | after a flush no later call, whatever happens in between, gives a path or past root for a leaf before the index, while the leaf at the index still answers |
| MerkleShape.RetractCanonical | include/merklecpp.h:809-886 | taking leaves away on the right and moving a left subtree up keeps the tree canonical over exactly the remaining leaves |
| MerkleShape.RetractLeafObjs | include/merklecpp.h:809-886 | only the last of the remaining leaves may have moved to another node |
| MerkleTree.TreeT.RetractDown | include/merklecpp.h:809-862 | the walk that overwrites nodes in place ends at the last kept leaf with the retracted tree in the heap, although it can refuse to descend |
| MerkleTree.TreeT.Repair | include/merklecpp.h:1001-1006 | going back up, sizes, heights and dirty flags of all kept nodes are right again |
| MerkleTree.TreeT.RetractTo | include/merklecpp.h:809-886 | the leaves of the model are cut after the index, whether they were waiting or inserted, or the call fails as the model does |
| MerkleCodec.ExtrasAreBlocks | include/merklecpp.h:1206-1235 | the extra hashes of a serialised tree are the blocks given by the bits of the number of flushed leaves, low bit first |
| MerkleCodec.ExtrasCount | include/merklecpp.h:1206-1235 | there is one extra hash for each set bit of the number of flushed leaves |
| MerkleTree.TreeT.Serialise | include/merklecpp.h:1206-1235 | the counts, the leaves that have not been flushed, and the extra hashes |
| MerkleRow.UnreadTree | include/merklecpp.h:1206-1235 | where the counts, the leaves that have not been flushed, and the extra hashes stand in the bytes |
| MerkleTree.TreeT.SerialiseSegment | include/merklecpp.h:1243-1277 | the bytes of the whole tree as it was at leaf to, flushed up to leaf from |
| MerkleTree.TreeT.SerialisedSize | include/merklecpp.h:1442-1457 | the number of bytes serialise writes |
| MerkleTree.TreeT.SerialisedSegmentSize | include/merklecpp.h:1463-1478 | the number of bytes of the segment between two leaves of the tree, or the error of walking to the first |
| MerkleRow.PairUp | include/merklecpp.h:1337-1347 | one level of a tree is made from the one below without changing leaves, leaf nodes or flushed count |
| MerkleRow.RebuildLevels | include/merklecpp.h:1318-1358 | the rows, with an extra hash for each set bit, grow into one canonical linked tree over all leaves |
| MerkleTree.TreeT.Deserialise | include/merklecpp.h:1290-1360 | reading the bytes of a tree gives a settled tree with the same leaves and flushed count, and the position after it |
| MerkleForm.FormUnique | include/merklecpp.h:1290-1360 | leaves and flushed count determine the whole form of a canonical tree: positions, heights, sizes and what is cut |
| MerkleForm.StrayNodes | include/merklecpp.h:594-600 | the childless nodes of size one are the leaf nodes, preceded by one stray node exactly when an odd number is flushed |
| MerkleForm.CopyNode | include/merklecpp.h:564-602 | the copy has the same form, hashes and flags on fresh nodes, and appends its ends except for those to skip |
| MerkleTree.TreeT.Assign | include/merklecpp.h:891-914 | for every other tree: the copy has the inserted leaves from where the current root begins, and the waiting ones, on fresh nodes of the same form; which leaf nodes it lists; it has equal leaves exactly when no insertion is under way, and is consistent exactly then or when nothing is flushed |
| MerkleForm.ListedLeaves | include/merklecpp.h:564-602 | passing over one node of size one when an odd number is flushed leaves exactly the leaf nodes, except that it drops the first one if all flushed leaves come before the root that is copied |
| MerkleTree.TreeT.AssignToItself | include/merklecpp.h:891-914 | for every tree: what is kept are the inserted leaves from where the current root begins, which are all leaves exactly when none wait and no insertion is under way |
| MerkleTree.TreeT.RootHolds | include/merklecpp.h:901-907 | the current root holds the last inserted leaves, and the flushed ones among them; they are all inserted ones exactly when no insertion is under way |
| MerkleZipper.PlugSuffix | include/merklecpp.h:1726-1770 | whatever is plugged into frames holds the last leaves of the whole tree, and the flushed ones among them |
| MerkleSettled.RootLeavesAll | include/merklecpp.h:1760-1770 | the root covers all leaves exactly when half the leaf count has at most two set bits |
| MerkleSettled.RootShare | include/merklecpp.h:1726-1770 | with frames left on the stack the current root covers the leaves given by the low bits of the leaf count, which are fewer than all |
| MerkleSettled.FramesAddBits | include/merklecpp.h:1760-1770 | each frame left on the stack adds a set bit to half the number of leaves |
| MerkleTree.TreeT.Size | include/merklecpp.h:1432-1437 | the exact number returned and the state it leaves, as functions of the leaves, how many wait, and whether an insertion is under way; it is 2n - 1 exactly when none is under way afterwards |
| MerkleRun.SizeOfFourteen | include/merklecpp.h:1432-1437 | after fourteen insertions size is 11, although there are 27 nodes |
| MerkleRun.CopyOfFourteen | include/merklecpp.h:891-914 | a copy made after that has six leaves, although size told that nodes are missing |
| MerkleRun.SelfAssignmentOfFourteen | include/merklecpp.h:891-914 | after that no leaf waits, and assigning the tree to itself keeps six of the fourteen leaves |
| MerkleRun.Run | include/merklecpp.h:745-1437 | for every sequence of insert, flush, retract, root, path, past root, past path, size and reload calls that never makes the tree hold more than 2^29 leaves, all answers and the final state are those of the model |
| MerkleRun.FlushingIsInvisible | include/merklecpp.h:774-803 | two trees over the same leaves, one flushed further, answer alike over any run without size calls that stays above what is flushed |
| MerkleRun.PastMeetsRetracted | include/merklecpp.h:1033-1202 | a past path and a past root of one tree are the path and the root of another, equal tree that has been retracted |
| MerkleRun.RootRemembered | include/merklecpp.h:930-955 | the answer to root today is the answer to past root of the leaf that is last today, after any run that keeps this leaf and does not flush past it |
| MerkleRun.Send | include/merklecpp.h:1206-1360 | the receiver of any serialised tree, the empty one included, has the same leaves and flushed count, in a tree of the same form |
| MerkleRun.SendSegment | include/merklecpp.h:1243-1360 | the root of a tree read from a segment is the past root as of its last leaf |
| MerklePath.Root | include/merklecpp.h:316-345 | hashes the leaf along the elements |
| MerklePath.Verify | include/merklecpp.h:351-354 | true exactly when the path hashes to the expected root |
| MerklePath.Serialise | include/merklecpp.h:358-371 | the leaf, both indices, the number of elements, and each element with its direction byte |
| MerklePath.Deserialise | include/merklecpp.h:375-393 | the path in any bytes on which the source stays inside its input, or the exception that there are not enough |
| MerklePath.PathRead | include/merklecpp.h:375-393 | a path is read exactly when there are enough bytes, its parts stand at fixed places, and an element joins at the left exactly when its byte is not zero |
| MerklePath.ReadWritten | include/merklecpp.h:358-393 | reading the bytes of any path gives that path, and the position after it |
| MerklePath.WrittenAgain | include/merklecpp.h:358-393 | writing a path that was read gives the same bytes exactly when all direction bytes are zero or one |
| MerklePath.SerialisedSizeRight | include/merklecpp.h:418-421 | serialised_size is the number of bytes written exactly when the path has eight elements |
| MerklePath.SerialisedSizeWrong | include/merklecpp.h:418-421 | for the path of an only leaf it says 32, and 56 are written |
| MerklePath.PathBinding | include/merklecpp.h:316-354 | two paths with the same directions and root are equal, or yield two different inputs with the same hash |
| MerklePath.VerifiedLeaf | include/merklecpp.h:351-354 | what verify means to a caller who has compared the directions with those of a leaf: the path shows that leaf and its audit path, or yields a collision; verify does not compare them, and neither does its caller at src/DrgCore.cpp:97-101 |
| MerklePath.SendAndVerify | src/DrgCore.cpp:58-80 | a proof that is sent and read back verifies against the root |
| MerklePath.SameProofs | include/merklecpp.h:126-131 | two lists of chunks have the same roots and paths exactly when the first 32 bytes of their chunks agree |
| MerklePath.RestUnproved | src/DrgCore.cpp:58-62 | replacing all but the first 32 bytes of a chunk changes no root and no path |
| Field.InvInverts | include/pvss/PolyOps.hpp:50 | the computed inverse inverts, for every nonzero element of every prime field |
| Polynomials.FactorTheorem | include/pvss/PolyOps.hpp:80-114 | dividing by x - a leaves the value at a |
| Polynomials.RootsVanish | include/pvss/PolyOps.hpp:80-114 | a product of linear factors vanishes exactly at its roots |
| Polynomials.InterpolateFits | include/pvss/PolyOps.hpp:80-114 | through any distinct points there is a polynomial with as many coefficients |
| PolyOps.Evaluate | include/pvss/PolyOps.hpp:127-149 | Horner's rule gives the value of the polynomial |
| DividedDifference.DividedPolynomial | include/pvss/PolyOps.hpp:86-97 | over n distinct points the weighted sum of the values of a polynomial is its coefficient of x^(n-1) |
| PolyOps.EnsureDegree | include/pvss/PolyOps.hpp:79-115 | true exactly when there are enough values and their divided difference times the drawn polynomial vanishes |
| PolyOps.DegreeTest | include/pvss/PolyOps.hpp:79-115 | the test passes for every polynomial that can be drawn if and only if the values lie on a polynomial of degree at most d |
| Lagrange.LagrangeInterpolation | include/pvss/PolyOps.hpp:56-76 | the interpolation over the first degree + 1 given points, or the exception for too few evaluations or points |
| Lagrange.LagrangeOneTo | include/pvss/PolyOps.hpp:33-54 | the same over the points 1 to degree + 1 |
| Lagrange.InterpolationRecovers | include/pvss/PolyOps.hpp:33-76 | interpolation at zero over distinct nonzero points gives the constant term of any polynomial that fits and has no more coefficients than there are points |
| Lagrange.QuorumsAgree | include/pvss/PolyOps.hpp:56-76 | any two quorums of points on one polynomial interpolate to the same value |
| Dleq.Complete | include/pvss/Dleq.hpp:155-187 | an honest proof of a logarithm verifies |
| Dleq.CompleteDual | include/pvss/Dleq.hpp:77-126 | an honest proof of equal logarithms verifies |
| Dleq.Sound | include/pvss/Dleq.hpp:155-168 | two accepted proofs with one commitment and different challenges give the logarithm away |
| Dleq.SoundDual | include/pvss/Dleq.hpp:77-104 | they give away one logarithm that holds for both pairs |
| Dleq.EveryProofHonest | include/pvss/Dleq.hpp:155-187 | a proof passes if and only if the prover who knows the logarithm gives it for some random element |
| Dleq.EveryDualProofHonest | include/pvss/Dleq.hpp:77-126 | the same for equal logarithms |
| Dleq.NonceEnters | include/pvss/Dleq.hpp:170-187 | the commitments of two proofs are equal exactly when their random elements are |
| Dleq.NonceEntersDual | include/pvss/Dleq.hpp:106-126 | the same for both commitments |
| Dleq.AnswerMasked | include/pvss/Dleq.hpp:170-187 | for a given challenge the answer for one logarithm is also that for any other, with another random element |
| Dleq.AnswerMaskedDual | include/pvss/Dleq.hpp:106-126 | the same for equal logarithms |
| Pvss.DecryptionGenerated | include/pvss/Decryption.hpp:47-57 | a generated decryption opens the encryption and verifies |
| Pvss.DecryptionUnderAnyKey | include/pvss/Decryption.hpp:47-57 | a decryption under any nonzero key verifies, and it opens the encryption if and only if the key is the right one or the encryption is zero |
| Pvss.EveryDecryptionGenerated | include/pvss/Decryption.hpp:47-57 | for points other than zero, verify_decryption accepts exactly what generate gives for some key and some random element |
| Pvss.OneDecryptionAnswer | include/pvss/Decryption.hpp:54-57 | for given points and a given commitment verify_decryption accepts no two answers |
| Pvss.DecryptionSound | include/pvss/Decryption.hpp:54-57 | two accepted decryptions with one commitment and different challenges give the key away |
| Pvss.DecryptionNonceEnters | include/pvss/Decryption.hpp:47-52 | the commitments of two decryptions are equal exactly when their random elements are |
| Pvss.CreatedConsistent | include/pvss/pvss.hpp:191-236 | a created sharing carries the dealer's polynomial in all its parts |
| Pvss.HonestSharingVerifies | include/pvss/pvss.hpp:160-189 | a created sharing passes every check, whatever polynomial the degree test draws |
| Pvss.SharingDecides | include/pvss/pvss.hpp:160-189 | a sharing passes verify_sharing for every drawn polynomial if and only if its commitments lie on one polynomial of degree f with gs as constant term and all its proofs verify |
| Pvss.SharesExtracted | include/pvss/Dleq.hpp:77-104 | a dealer who can answer two challenges for each share knows the shares: one value in encryption and commitment |
| Pvss.AcceptedTwice | include/pvss/pvss.hpp:160-189 | two accepted sharings with equal points and commitments and different challenges show that the dealer knows the shares |
| Pvss.EverySharingHonest | include/pvss/pvss.hpp:160-236 | a sharing passes verify_sharing for every drawn polynomial and its dealer knows the shares, if and only if create_sharing makes it from some polynomial and some random elements |
| Pvss.NoncesEnter | include/pvss/pvss.hpp:191-236 | each random element enters its own proof: two sharings of one polynomial differ exactly where their random elements do |
| Pvss.VerifiedConsistent | include/pvss/pvss.hpp:160-189 | a sharing that always verifies and whose dealer knows the shares carries one polynomial in all its parts |
| PvssContext.CreateSharing | include/pvss/pvss.hpp:191-236 | encryptions, commitments and proofs of all values of the polynomial, and the decomposition proof |
| PvssContext.VerifySharing | include/pvss/pvss.hpp:160-189 | true exactly when sizes, degree test, all equality proofs, gs and its proof are right |
| PvssContext.AggregateSharings | include/pvss/pvss.hpp:238-280 | the column sums of encryptions and commitments, all decompositions, and the given ids, the id of each sharing beside its decomposition |
| PvssAggregate.AggregateConsistent | include/pvss/pvss.hpp:238-280 | aggregation is homomorphic: sharings of polynomials aggregate to their sum |
| PvssAggregate.VerifiedAggregate | include/pvss/pvss.hpp:121-280 | sharings that always verify, from dealers who know the shares, aggregate to something that always verifies, exactly when there is one id for each and at least f |
| PvssAggregate.SecretsExtracted | include/pvss/pvss.hpp:121-158 | two accepted aggregates of the same points with different challenges give the secret of every dealer away |
| PvssContext.AggregateAccepted | include/pvss/pvss.hpp:121-158 | an aggregate of consistent sharings is accepted exactly when there is one id for each and at least f |
| PvssContext.SurplusId | include/pvss/pvss.hpp:238-280 | honest sharings are accepted with one id for each, and rejected with one more |
| PvssContext.VerifyAggregation | include/pvss/pvss.hpp:121-158 | true exactly when sizes, degree test, pairing checks, decomposition proofs and the sum of gs are right |
| PvssAggregate.AggregationDecides | include/pvss/pvss.hpp:121-158 | an aggregate always passes if and only if it comes from one polynomial of degree f, with matching encryptions and sum of gs |
| PvssContext.Reconstruct | include/pvss/pvss.hpp:79-94 | the interpolation at zero of the first f + 1 decryptions, and its pairing |
| PvssContext.VerifyBeacon | include/pvss/pvss.hpp:96-110 | true exactly when the pairing check for the point and the pairing of the beacon hold |
| PvssAggregate.Agreement | include/pvss/pvss.hpp:79-110 | for any aggregate that always passes, all quorums of correct decryptions reconstruct one point, and verify_beacon accepts no other |
| PvssAggregate.BeaconDecides | include/pvss/pvss.hpp:79-110 | with one decryption of the quorum in doubt, verify_beacon accepts what is reconstructed if and only if that decryption opens the encryption under the key of its origin |
| Lagrange.OneChanged | include/pvss/PolyOps.hpp:56-76 | changing one of the values changes the interpolation at zero |
| PvssContext.HonestRun | include/pvss/pvss.hpp:79-281 | for all keys, polynomials and random elements every check of an honest run passes, and the beacon carries the sum of the secrets |
| PicoBlock.Hash256Block | include/pvss/internal/picosha.h:91-139 | masked 64-bit arithmetic computes the compression function of FIPS 180-4 |
| PicoBlock.WideRound | include/pvss/internal/picosha.h:118-130 | the two masked sums of a round are those of 32-bit words |
| PicoBlock.LowPlus | include/pvss/internal/picosha.h:118-141 | sums taken in 64 bits and masked later agree with sums modulo 2^32 |
| MerkleCompress.Sha256Compress | include/merklecpp.h:1820-1875 | the bytes of the same compression function from the initial hash value, on the two hashes side by side |
| MerkleCompress.SwappedLoad | include/merklecpp.h:49-69 | reading on a little-endian machine and swapping gives the big-endian word |
| Sha256.ScheduleAt | include/pvss/internal/picosha.h:97-107 | every word of the schedule is given by the four earlier words of the standard |
| Sha256Constants.PrimesInOrder | include/pvss/internal/picosha.h:50-61 | the list starts with the first prime, and each entry is followed by the next prime |
| Sha256Constants.ConstantsAreCubeRoots | include/pvss/internal/picosha.h:50-61 | the 64 round constants are the first 32 bits of the fractional parts of the cube roots of the first 64 primes |
| Sha256Constants.InitialIsSquareRoots | include/pvss/internal/picosha.h:63-65 | the initial hash value holds those of the square roots of the first eight primes |
| Sha256Example.DigestOfAbc | include/pvss/internal/picosha.h:91-139 | the digest of "abc" |
| PicoSha.Hash256OneByOne.AddToDataLength | include/pvss/internal/picosha.h:236-248 | the four digits with their carries hold the sum of the lengths |
| PicoSha.Hash256OneByOne.WriteDataBitLength | include/pvss/internal/picosha.h:249-269 | writes eight times the length as a big-endian 64-bit number |
| PicoSha.CarryStep | include/pvss/internal/picosha.h:236-248 | splitting a digit into what stays and what is carried keeps the value |
| Sha256Padding.TimesEightValue | include/pvss/internal/picosha.h:254-262 | the digit-wise shift multiplies the value by eight when the result fits four digits |
| Sha256Padding.DigitsAreBigEndian | include/pvss/internal/picosha.h:264-268 | the bytes of the digits, the highest first, are the big-endian bytes of their value |
| Sha256Padding.PadOneBlock | include/pvss/internal/picosha.h:206-223 | with at most 55 bytes left over the padding of section 5.1.1 completes one block |
| Sha256Padding.PadTwoBlocks | include/pvss/internal/picosha.h:206-223 | with more it fills that block and another |
| PicoSha.Hash256OneByOne.Process | include/pvss/internal/picosha.h:195-204 | appends to the message: all whole blocks are compressed, the rest stays in the buffer, and the length counts |
| PicoSha.Hash256OneByOne.Finish | include/pvss/internal/picosha.h:206-223 | the hash value of the padded message |
| PicoSha.Hash256OneByOne.GetHashBytes | include/pvss/internal/picosha.h:225-233 | as many bytes of the digest as the output has room for |
| PicoSha.Hash256Split | include/pvss/internal/picosha.h:195-233 | however a message is split over calls of process, the digest is that of FIPS 180-4 for the whole |
| PicoSha.Hash256Impl | include/pvss/internal/picosha.h:289-297 | the SHA-256 hash of the range |
| PicoSha.Hash256Buffered | include/pvss/internal/picosha.h:299-318 | the same for an input iterator, for every buffer size but zero |
| Erasure.Padding | include/erasure.h:65-76 | the blocks hold the payload with less than k * w * sizeof(long) bytes to spare, and their size is a multiple of w * sizeof(long) |
| Erasure.Encode | include/erasure.h:60-106 | k + m chunks of equal length, the first k of which are the payload padded with the character 0 and the others its code |
| Erasure.Trim | include/erasure.h:138-151 | the loop outputs exactly the first size bytes of the blocks, on and off block boundaries |
| Erasure.Decode | include/erasure.h:108-152 | the original bytes if the code recovers the blocks, false otherwise |
| Erasure.RoundTrip | include/erasure.h:60-152 | what is left after losing at most m chunks decodes to the payload, for every payload and all parameters for which there is a code on block lengths that are multiples of w * sizeof(long) |

## Left out

- MerkleTree.TreeT.Deserialise: is stated for bytes that some tree was serialised to; on other bytes the source reads past the end or builds inconsistent trees.
- MerklePath.Deserialise: requires bytes on which the source, which looks for the end only where it reads a hash, stays inside its input.
- MerkleTree.TreeT.Leaf: requires an index that has not been flushed, because the source subtracts without a check.
- MerkleTree.TreeT.Insert: requires fewer than 2^29 leaves, because the source computes a power of two of the height in an int.
- MerkleRun.Run: requires that the tree never holds more than 2^29 leaves, for the same reason; the number of calls is not bounded.
- PolyOps.EnsureDegree: requires fewer than degree values or at least degree + 2, because in between the source's subtraction wraps around; and at most as many values as the field has elements, because beyond that the source inverts zero.
- Lagrange.LagrangeInterpolation: requires distinct points, because for equal ones the source inverts zero.
- PvssContext.Reconstruct: requires distinct origins among the decryptions it uses, for the same reason.
- PvssAggregate.VerifiedAggregate: takes gs as the representative of its group element, since a challenge here is a function of exponents.
- PicoSha.Hash256Buffered: requires a nonzero buffer, because with none the source never ends.
- Erasure.RoundTrip: takes the matrix code of jerasure as an ideal code that recovers at most m lost blocks, on block lengths that are multiples of w * sizeof(long), which are the only ones that occur.
- PathT is a value here, although the source fills its fields in place; its copy constructors, which drop the indices, are not part of the model.
- The hash and walk stacks are local variables here and members in the source; walks with a callback are written out for each caller, or run over the list of steps where the callback only reads.
- Assertions of the source, which only debug builds check.
- Statistics except for the number of hashes, traces, text output, iterators, and the release of memory.
- Context holds a secret key and an index that are parameters here; groups are represented by exponents, so that the curve, the pairing and their encodings are not part of the model.
- Probabilistic claims: the chance that the degree test accepts by luck, zero knowledge, and the security of the Fiat-Shamir transformation.
- The rotations of picosha are written out at each distance that occurs, and both constant tables of the source are modelled as one.
- DrgCore beyond sending and verifying paths, the networking, the configuration files, the VRF, the OpenSSL and mbedTLS variants of the compression function, and the text encodings of group elements.
