/** The witness helpers of the deletion prover in
    prover/deletion_proving_system.go: the shape validation of the request,
    the byte string whose Keccak-256 digest is the public input, and the
    order of work in `ProveDeletion` (validate, copy, hand to the backend). */
module Deletion {
  import opened Wrappers
  import opened Bytes

  /** Go's `uint32`. */
  type uint32 = x: nat | x < 0x1_0000_0000

  /** A Keccak-256 digest as `keccak256.Hash` returns it: 32 bytes. */
  type Bytes32 = b: seq<byte> | |b| == 32 witness seq(32, _ => 0)

  /** `keccak256.Hash`, left uninterpreted. */
  type Keccak256Hash = seq<byte> -> Bytes32

  /** The list whose length `ValidateShape` found wrong. */
  datatype ShapeField = IdComms | MerkleProofs | DeletionIndices

  /** The errors of `ValidateShape`, carrying what the message prints:
      a list of the wrong length and that length, or the index of a
      Merkle proof of the wrong size and that size. */
  datatype ShapeError =
    | WrongCount(field: ShapeField, actual: nat)
    | WrongProofSize(index: nat, actual: nat)

  /** The first proof at or after `from` whose length is not `depth`. */
  function FirstWrongProof(proofs: seq<seq<nat>>, depth: nat, from: nat): (r: Option<nat>)
    requires from <= |proofs|
    ensures r.None? <==> forall i :: from <= i < |proofs| ==> |proofs[i]| == depth
    ensures r.Some? ==> from <= r.value < |proofs| && |proofs[r.value]| != depth
    ensures r.Some? ==> forall i :: from <= i < r.value ==> |proofs[i]| == depth
    decreases |proofs| - from
  {
    if from == |proofs| then None
    else if |proofs[from]| != depth then Some(from)
    else FirstWrongProof(proofs, depth, from + 1)
  }

  /** The bytes `binary.Write(buf, binary.BigEndian, indices)` produces:
      every index as 4 big-endian bytes, in order. */
  function IndexBytes(indices: seq<uint32>): (r: seq<byte>)
    ensures |r| == 4 * |indices|
  {
    if indices == [] then [] else FixedBigEndian(indices[0], 4) + IndexBytes(indices[1..])
  }

  /** Reads 4-byte big-endian chunks back into indices. */
  function DecodeIndices(b: seq<byte>): seq<nat>
    decreases |b|
  {
    if |b| < 4 then [] else [BigEndianValue(b[..4])] + DecodeIndices(b[4..])
  }

  /** The byte string `ComputeInputHashDeletion` hashes: the indices, then
      `PreRoot.Bytes()` and `PostRoot.Bytes()`, both without leading zeros. */
  function InputHashData(indices: seq<uint32>, preRoot: nat, postRoot: nat): seq<byte> {
    IndexBytes(indices) + MinimalBigEndian(preRoot) + MinimalBigEndian(postRoot)
  }

  /** The fixed-width layout a Solidity contract gets from packing the
      indices as `uint32`s and both roots as `uint256`s. */
  function PackedInputHashData(indices: seq<uint32>, preRoot: nat, postRoot: nat): (r: seq<byte>)
    ensures |r| == 4 * |indices| + 64
  {
    IndexBytes(indices) + FixedBigEndian(preRoot, 32) + FixedBigEndian(postRoot, 32)
  }

  /** `DeletionParameters`, the request the deletion prover receives. */
  class DeletionParameters {
    var inputHash: nat
    var preRoot: nat
    var postRoot: nat
    var deletionIndices: seq<uint32>
    var idComms: seq<nat>
    var merkleProofs: seq<seq<nat>>

    constructor (inputHash: nat, preRoot: nat, postRoot: nat, deletionIndices: seq<uint32>,
                 idComms: seq<nat>, merkleProofs: seq<seq<nat>>)
      ensures this.inputHash == inputHash && this.preRoot == preRoot && this.postRoot == postRoot
      ensures this.deletionIndices == deletionIndices && this.idComms == idComms
      ensures this.merkleProofs == merkleProofs
    {
      this.inputHash := inputHash;
      this.preRoot := preRoot;
      this.postRoot := postRoot;
      this.deletionIndices := deletionIndices;
      this.idComms := idComms;
      this.merkleProofs := merkleProofs;
    }

    /** `ValidateShape`: no error exactly when there are `batchSize`
        commitments, proofs and indices and every proof has `treeDepth`
        siblings; otherwise the first failing check, in the order
        commitments, proofs, indices, proof sizes, and for the proof sizes
        the smallest offending proof. */
    function ValidateShape(treeDepth: uint32, batchSize: uint32): (r: Option<ShapeError>)
      reads this
      ensures r.None? <==>
        && |idComms| == batchSize && |merkleProofs| == batchSize && |deletionIndices| == batchSize
        && forall i :: 0 <= i < |merkleProofs| ==> |merkleProofs[i]| == treeDepth
      ensures |idComms| != batchSize ==> r == Some(WrongCount(IdComms, |idComms|))
      ensures |idComms| == batchSize && |merkleProofs| != batchSize ==>
        r == Some(WrongCount(MerkleProofs, |merkleProofs|))
      ensures |idComms| == batchSize && |merkleProofs| == batchSize && |deletionIndices| != batchSize ==>
        r == Some(WrongCount(DeletionIndices, |deletionIndices|))
      ensures |idComms| == batchSize && |merkleProofs| == batchSize && |deletionIndices| == batchSize && r.Some? ==>
        r.value.WrongProofSize?
      ensures r.Some? && r.value.WrongProofSize? ==>
        && |idComms| == batchSize && |merkleProofs| == batchSize && |deletionIndices| == batchSize
        && r.value.index < |merkleProofs|
        && r.value.actual == |merkleProofs[r.value.index]| != treeDepth
        && forall i :: 0 <= i < r.value.index ==> |merkleProofs[i]| == treeDepth
    {
      if |idComms| != batchSize then Some(WrongCount(IdComms, |idComms|))
      else if |merkleProofs| != batchSize then Some(WrongCount(MerkleProofs, |merkleProofs|))
      else if |deletionIndices| != batchSize then Some(WrongCount(DeletionIndices, |deletionIndices|))
      else
        match FirstWrongProof(merkleProofs, treeDepth, 0)
        case None => None
        case Some(i) => Some(WrongProofSize(i, |merkleProofs[i]|))
    }

    /** `ComputeInputHashDeletion`: sets `InputHash` to the big-endian value
        of the Keccak-256 digest of the serialised indices and roots, and
        changes nothing else. */
    method ComputeInputHashDeletion(keccak: Keccak256Hash)
      modifies this`inputHash
      ensures inputHash == BigEndianValue(keccak(InputHashData(deletionIndices, preRoot, postRoot)))
      ensures inputHash < Pow256(32)
      ensures preRoot == old(preRoot) && postRoot == old(postRoot)
      ensures deletionIndices == old(deletionIndices) && idComms == old(idComms)
      ensures merkleProofs == old(merkleProofs)
    {
      var data: seq<byte> := [];
      var buf := IndexBytes(deletionIndices);
      data := data + buf;
      data := data + MinimalBigEndian(preRoot);
      data := data + MinimalBigEndian(postRoot);
      assert data == InputHashData(deletionIndices, preRoot, postRoot);

      var hashBytes := keccak(data);
      inputHash := BigEndianValue(hashBytes);
      BigEndianValueFits(hashBytes);
    }
  }

  /** The witness assignment `ProveDeletion` builds for the deletion
      circuit. */
  datatype DeletionAssignment = DeletionAssignment(
    inputHash: nat,
    deletionIndices: seq<nat>,
    preRoot: nat,
    postRoot: nat,
    idComms: seq<nat>,
    merkleProofs: seq<seq<nat>>)

  /** The errors of `ProveDeletion`: a rejected shape, or an error of the
      witness builder or the prover. */
  datatype ProveError<E> = InvalidShape(shape: ShapeError) | BackendError(backend: E)

  /** A backend result seen as a result of `ProveDeletion`. Go returns the
      backend's error value itself; `BackendError` only tags it so that the
      model's error type can also hold a shape error. */
  function Lift<P, E>(r: Result<P, E>): Result<P, ProveError<E>> {
    match r
    case Success(proof) => Success(proof)
    case Failure(e) => Failure(BackendError(e))
  }

  /** `ProvingSystem` for deletions; the keys and the constraint system are
      part of the backend. */
  class ProvingSystem {
    const treeDepth: uint32
    const batchSize: uint32

    constructor (treeDepth: uint32, batchSize: uint32)
      ensures this.treeDepth == treeDepth && this.batchSize == batchSize
    {
      this.treeDepth := treeDepth;
      this.batchSize := batchSize;
    }

    /** `ProveDeletion`: a shape error is returned before anything else
        happens; otherwise the backend (`frontend.NewWitness` followed by
        `groth16.Prove`) receives an assignment whose lists hold, position
        by position, the request's indices, commitments and proof entries. */
    method ProveDeletion<P, E>(params: DeletionParameters, backend: DeletionAssignment -> Result<P, E>)
      returns (r: Result<P, ProveError<E>>)
      ensures params.ValidateShape(treeDepth, batchSize).Some? ==>
        r == Failure(InvalidShape(params.ValidateShape(treeDepth, batchSize).value))
      ensures params.ValidateShape(treeDepth, batchSize).None? ==> r == Lift(backend(AssignmentOf(params)))
    {
      var shape := params.ValidateShape(treeDepth, batchSize);
      if shape.Some? {
        return Failure(InvalidShape(shape.value));
      }
      var n := batchSize as nat;
      var depth := treeDepth as nat;

      var deletionIndices := new nat[n];
      for i := 0 to n
        invariant forall k :: 0 <= k < i ==> deletionIndices[k] == params.deletionIndices[k]
      {
        deletionIndices[i] := params.deletionIndices[i];
      }
      var indices := deletionIndices[..];
      assert indices == params.deletionIndices;

      var idComms := new nat[n];
      for i := 0 to n
        invariant forall k :: 0 <= k < i ==> idComms[k] == params.idComms[k]
      {
        idComms[i] := params.idComms[i];
      }
      var comms := idComms[..];
      assert comms == params.idComms;

      var proofs: seq<seq<nat>> := [];
      for i := 0 to n
        invariant |proofs| == i
        invariant forall k :: 0 <= k < i ==> proofs[k] == params.merkleProofs[k]
      {
        var proof := new nat[depth];
        for j := 0 to depth
          invariant forall l :: 0 <= l < j ==> proof[l] == params.merkleProofs[i][l]
        {
          proof[j] := params.merkleProofs[i][j];
        }
        assert proof[..] == params.merkleProofs[i];
        proofs := proofs + [proof[..]];
      }
      assert proofs == params.merkleProofs;

      var assignment := DeletionAssignment(
        params.inputHash, indices, params.preRoot, params.postRoot, comms, proofs);
      assert assignment == AssignmentOf(params);
      r := Lift(backend(assignment));
    }
  }

  /** The assignment of a request: its own values, entry by entry. */
  function AssignmentOf(params: DeletionParameters): (a: DeletionAssignment)
    reads params
    ensures CopiedFrom(a, params)
  {
    DeletionAssignment(params.inputHash, params.deletionIndices, params.preRoot, params.postRoot,
      params.idComms, params.merkleProofs)
  }

  /** A request that passes `ValidateShape` yields an assignment of the
      shape the deletion circuit is compiled for: `batchSize` indices,
      commitments and proofs, each proof with `treeDepth` siblings. */
  lemma ValidatedAssignmentShape(params: DeletionParameters, treeDepth: uint32, batchSize: uint32)
    requires params.ValidateShape(treeDepth, batchSize).None?
    ensures var a := AssignmentOf(params);
      && |a.deletionIndices| == batchSize && |a.idComms| == batchSize && |a.merkleProofs| == batchSize
      && forall i :: 0 <= i < |a.merkleProofs| ==> |a.merkleProofs[i]| == treeDepth
  {
  }

  /** `a` holds the request's values, list entries in the same positions. */
  ghost predicate CopiedFrom(a: DeletionAssignment, params: DeletionParameters)
    reads params
  {
    && a.inputHash == params.inputHash && a.preRoot == params.preRoot && a.postRoot == params.postRoot
    && |a.deletionIndices| == |params.deletionIndices|
    && (forall k :: 0 <= k < |a.deletionIndices| ==> a.deletionIndices[k] == params.deletionIndices[k])
    && |a.idComms| == |params.idComms|
    && (forall k :: 0 <= k < |a.idComms| ==> a.idComms[k] == params.idComms[k])
    && |a.merkleProofs| == |params.merkleProofs|
    && (forall k :: 0 <= k < |a.merkleProofs| ==> a.merkleProofs[k] == params.merkleProofs[k])
  }

  /** Index `i` occupies bytes `4i .. 4i+3` of the serialisation, and those
      four bytes read big-endian are the index. */
  lemma {:induction false} IndexBytesChunk(indices: seq<uint32>, i: nat)
    requires i < |indices|
    ensures IndexBytes(indices)[4 * i .. 4 * i + 4] == FixedBigEndian(indices[i], 4)
    ensures BigEndianValue(IndexBytes(indices)[4 * i .. 4 * i + 4]) == indices[i]
  {
    var head := FixedBigEndian(indices[0], 4);
    assert IndexBytes(indices) == head + IndexBytes(indices[1..]);
    if i == 0 {
      assert (head + IndexBytes(indices[1..]))[..4] == head;
    } else {
      IndexBytesChunk(indices[1..], i - 1);
      SliceAfter(head, IndexBytes(indices[1..]), 4 * (i - 1), 4 * (i - 1) + 4);
    }
    Uint32Fits(indices[i]);
  }

  lemma SliceAfter(a: seq<byte>, b: seq<byte>, lo: nat, hi: nat)
    requires lo <= hi <= |b|
    ensures (a + b)[|a| + lo .. |a| + hi] == b[lo..hi]
  {
  }

  lemma Uint32Fits(x: uint32)
    ensures BigEndianValue(FixedBigEndian(x, 4)) == x
  {
    assert Pow256(4) == 0x1_0000_0000;
    FixedBigEndianRoundTrip(x, 4);
  }

  /** Decoding the serialisation chunk by chunk gives back the indices. */
  lemma {:induction false} DecodeIndexBytes(indices: seq<uint32>)
    ensures DecodeIndices(IndexBytes(indices)) == indices
  {
    if indices != [] {
      var head := FixedBigEndian(indices[0], 4);
      var b := head + IndexBytes(indices[1..]);
      assert b[..4] == head && b[4..] == IndexBytes(indices[1..]);
      DecodeIndexBytes(indices[1..]);
      Uint32Fits(indices[0]);
      assert [indices[0]] + indices[1..] == indices;
    }
  }

  /** The hashed bytes are the indices' 4-byte chunks, then the bytes of
      `PreRoot`, then those of `PostRoot`; each root's bytes read back as
      the root. */
  lemma InputHashDataLayout(indices: seq<uint32>, preRoot: nat, postRoot: nat)
    ensures var data := InputHashData(indices, preRoot, postRoot);
      var n := 4 * |indices|;
      var m := |MinimalBigEndian(preRoot)|;
      && |data| == n + m + |MinimalBigEndian(postRoot)|
      && data[..n] == IndexBytes(indices)
      && BigEndianValue(data[n .. n + m]) == preRoot
      && BigEndianValue(data[n + m ..]) == postRoot
  {
    var data := InputHashData(indices, preRoot, postRoot);
    var n := 4 * |indices|;
    var m := |MinimalBigEndian(preRoot)|;
    assert data[n .. n + m] == MinimalBigEndian(preRoot);
    assert data[n + m ..] == MinimalBigEndian(postRoot);
    MinimalBigEndianRoundTrip(preRoot);
    MinimalBigEndianRoundTrip(postRoot);
  }

  /** In the packed layout every field sits at a fixed offset: the indices
      in the first `4n` bytes, then 32 bytes per root, each reading back as
      its root when it is below 2^256. */
  lemma PackedInputHashDataLayout(indices: seq<uint32>, preRoot: nat, postRoot: nat)
    requires preRoot < Pow256(32) && postRoot < Pow256(32)
    ensures var data := PackedInputHashData(indices, preRoot, postRoot);
      var n := 4 * |indices|;
      && data[..n] == IndexBytes(indices)
      && BigEndianValue(data[n .. n + 32]) == preRoot
      && BigEndianValue(data[n + 32 ..]) == postRoot
  {
    ThreeParts(IndexBytes(indices), FixedBigEndian(preRoot, 32), FixedBigEndian(postRoot, 32));
    FixedBigEndianRoundTrip(preRoot, 32);
    FixedBigEndianRoundTrip(postRoot, 32);
  }

  lemma ThreeParts(a: seq<byte>, b: seq<byte>, d: seq<byte>)
    ensures (a + b + d)[..|a|] == a
    ensures (a + b + d)[|a| .. |a| + |b|] == b
    ensures (a + b + d)[|a| + |b| ..] == d
  {
  }

  /** With minimal encodings the byte string does not determine the roots:
      `PreRoot = 0x01, PostRoot = 0x0203` and `PreRoot = 0x0102,
      PostRoot = 0x03` hash the same bytes `01 02 03`. */
  lemma InputHashDataAmbiguous()
    ensures InputHashData([], 0x01, 0x0203) == InputHashData([], 0x0102, 0x03) == [1, 2, 3]
  {
    assert MinimalBigEndian(0x0203) == [2, 3] by {
      assert MinimalBigEndian(0x02) == [2];
    }
    assert MinimalBigEndian(0x0102) == [1, 2] by {
      assert MinimalBigEndian(0x01) == [1];
    }
  }

  /** Roots whose top byte is non-zero are written as full 32-byte words,
      so for them the hashed bytes are the fixed-width layout a contract
      gets from packing two `uint256`s. */
  lemma FullWidthRootsArePadded(indices: seq<uint32>, preRoot: nat, postRoot: nat)
    requires Pow256(31) <= preRoot < Pow256(32) && Pow256(31) <= postRoot < Pow256(32)
    ensures InputHashData(indices, preRoot, postRoot)
         == PackedInputHashData(indices, preRoot, postRoot)
  {
    MinimalIsFull(preRoot);
    MinimalIsFull(postRoot);
  }

  /** Conversely, for roots below 2^256 the hashed bytes are the
      fixed-width layout only when both roots have a non-zero top byte. */
  lemma PaddedRootsAreFullWidth(indices: seq<uint32>, preRoot: nat, postRoot: nat)
    requires preRoot < Pow256(32) && postRoot < Pow256(32)
    requires InputHashData(indices, preRoot, postRoot)
          == PackedInputHashData(indices, preRoot, postRoot)
    ensures Pow256(31) <= preRoot && Pow256(31) <= postRoot
  {
    FixedIsPaddedMinimal(preRoot, 32);
    FixedIsPaddedMinimal(postRoot, 32);
    var data := InputHashData(indices, preRoot, postRoot);
    assert |data| == 4 * |indices| + 64;
    assert |MinimalBigEndian(preRoot)| == 32 && |MinimalBigEndian(postRoot)| == 32;
    TopByteBound(preRoot);
    TopByteBound(postRoot);
  }

  /** A root whose minimal encoding has 32 bytes is at least 256^31. */
  lemma TopByteBound(x: nat)
    requires |MinimalBigEndian(x)| == 32
    ensures Pow256(31) <= x
  {
    var b := MinimalBigEndian(x);
    MinimalBigEndianRoundTrip(x);
    var top, rest := b[0], b[1..];
    assert [top] + rest == b && |rest| == 31;
    BigEndianPrepend(top, rest);
    AtLeastOnce(top, Pow256(31));
  }

  lemma AtLeastOnce(k: nat, p: nat)
    requires k >= 1
    ensures k * p >= p
  {
  }

  lemma MinimalIsFull(x: nat)
    requires Pow256(31) <= x < Pow256(32)
    ensures MinimalBigEndian(x) == FixedBigEndian(x, 32)
  {
    FixedIsPaddedMinimal(x, 32);
    MinimalBigEndianRoundTrip(x);
    BigEndianValueFits(MinimalBigEndian(x));
    if |MinimalBigEndian(x)| < 32 {
      Pow256Monotone(|MinimalBigEndian(x)|, 31);
      assert false;
    }
    assert seq(0, _ => 0) + MinimalBigEndian(x) == MinimalBigEndian(x);
  }

  lemma {:induction false} Pow256Monotone(a: nat, b: nat)
    requires a <= b
    ensures Pow256(a) <= Pow256(b)
    decreases b
  {
    if a < b {
      Pow256Monotone(a, b - 1);
    }
  }
}
