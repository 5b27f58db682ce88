# semaphore-mtb batch-update prover core, in Dafny

This project models the core of the semaphore-mtb prover. The prover builds
zero-knowledge circuits showing that a batch of identity commitments was
inserted into, or deleted from, a fixed-depth Poseidon Merkle tree. An
on-chain contract then checks the proof against one public Keccak-256
digest of the batch. The project proves properties of that model.

The model covers the following parts:

- **The bit-ordering bridge** (`endianness.dfy`): `SwapBitArrayEndianness`,
  `ToBinaryBigEndian` and `FromBinaryBigEndian`, together with the
  `bitPatternLengthError` they raise. gnark's `ToBinary`/`FromBinary` are
  modelled in `gnark.dfy`, and big-endian byte strings in `bytes.dfy`.
- **The Merkle gadgets** (`merkle.dfy`): `ProofRound` and `VerifyProof`.
  `merkle_tree.dfy` adds an independent reference: a perfect binary
  Poseidon tree with its root, its authentication paths and leaf updates.
  It is used to state what the gadgets compute.
- **The chained batch-insertion gadget** `InsertionProof` and the constant
  `emptyLeaf` (`insertion.dfy`).
- **The top-level insertion circuit** `MbuCircuit.Define` (`circuit.dfy`).
  It is modelled as a satisfaction predicate. Every `AssertIsEqual`, every
  `AssertIsBoolean` and every range check implied by `ToBinary` is one
  conjunct. `Define` is a method that feeds a stateful Keccak hasher
  object and is proved to return exactly that predicate.
- **The deletion witness helpers** (`deletion.dfy`):
  - `DeletionParameters.ValidateShape`, with its check order and
    first-failure reporting.
  - `ComputeInputHashDeletion`, the byte serialiser that sets `InputHash`.
  - `ProvingSystem.ProveDeletion`: it validates the shape first, then copies
    the request element by element into the witness assignment, then calls
    the backend.

Conventions:

- **Hash functions.** Poseidon2 and the two Keccak-256 functions are never
  given a definition. They are function-typed parameters:
  - `Merkle.Poseidon2`;
  - `Circuit.KeccakHash`, the in-circuit gadget, which returns 256 boolean bits;
  - `Deletion.Keccak256Hash`, which returns 32 bytes.

  The in-circuit gadget is taken to read each group of eight input bits,
  and to emit each group of eight digest bits, least significant bit
  first (`Endianness.BitsToBytes`). `Circuit.HashedBitsArePackedInputs`,
  `Circuit.InputHashIsDigestValue` and
  `Endianness.BigEndianBitsAreBigEndianBytes` say what the contract hashes
  and reads only under this bit order; the gadget's internals are not part
  of this model.
- **Circuit values** are natural numbers.
  - `ToBinary(v, n)` is the `n` little-endian bits of `v`, together with the
    constraint `v < 2^n`.
  - `FromBinary` is the little-endian value of its bits.
  - `Select(b, x, y)` is `x` when `b = 1` and `y` otherwise.

**The code and the system's documentation disagree on one point.** The
documented off-circuit digest for a deletion batch hashes both roots as
256-bit big-endian words, the layout a contract gets from packing
`uint256`s. In the source, the comment at
prover/deletion_proving_system.go:45-49 says the encoding is big-endian
"to agree with Solidity", and the insertion digest uses fixed 256-bit words
(prover/circuit.go:159-161); `Deletion.PackedInputHashData` is that
fixed-width layout. The code instead hashes `PreRoot.Bytes()` and
`PostRoot.Bytes()` (prover/deletion_proving_system.go:58-59). Go's
`big.Int.Bytes()` is the minimal big-endian encoding, with no leading zero
bytes. The model follows the code: `Deletion.InputHashData` uses
`Bytes.MinimalBigEndian`. Two lemmas show what this means:

- `Deletion.InputHashDataAmbiguous` gives two different root pairs that
  hash the same bytes.
- `Deletion.FullWidthRootsArePadded` and `Deletion.PaddedRootsAreFullWidth`
  show that, for roots below 2^256, the two layouts agree exactly when both
  roots have a non-zero top byte.

The deletion circuit is not among the modelled files, so the model cannot
tell which layout the circuit expects.

## Model

| member | source | states |
|---|---|---|
| Endianness.SwapBitArrayEndianness | prover/circuit.go:114-131 | fails with a `bitPatternLengthError` carrying the input length exactly when the length is not a multiple of 8; on success returns the input's bytes in reverse order, with the same length, so the trailing length check never fires |
| Endianness.ByteSwapAt | prover/circuit.go:121-124 | byte `k` of the swapped pattern is byte `n/8-1-k` of the input, with the bit order inside the byte kept |
| Endianness.ByteSwapInvolution | prover/circuit.go:104-110 | swapping the byte order twice gives back the original pattern |
| Endianness.SwapEndiannessInvolution | prover/circuit.go:114-131 | a successful swap can be swapped back to the input; an unsuccessful one reports the input length, which is not a whole number of bytes |
| Endianness.ByteSwapBoolean | prover/circuit.go:107-110 | the swap only moves variables around: a pattern of bits stays a pattern of bits |
| Endianness.ToBinaryBigEndian | prover/circuit.go:138-141 | fails with the requested size exactly when it is not a whole number of bytes; otherwise yields `size` boolean bits |
| Endianness.FromBinaryBigEndian | prover/circuit.go:148-155 | fails with the pattern's length exactly when it is not a whole number of bytes |
| Endianness.BigEndianRoundTrip | prover/circuit.go:138-155 | `FromBinaryBigEndian` inverts `ToBinaryBigEndian` on every value that fits the width |
| Endianness.BigEndianBitsAreBigEndianBytes | prover/circuit.go:168-170 | the bytes of `ToBinaryBigEndian(v, 8w)` are exactly the `w`-byte big-endian encoding of `v` that Solidity uses |
| Endianness.FromBinarySwappedIsBigEndianValue | prover/circuit.go:197-205 | reading a digest with `FromBinaryBigEndian` gives the big-endian value of its bytes, which is the off-circuit reading |
| Merkle.ProofRound | prover/circuit.go:45-51 | with direction 1 the result is `Poseidon2(Hash, Sibling)`, with direction 0 it is `Poseidon2(Sibling, Hash)` |
| Merkle.VerifyProof | prover/circuit.go:58-64 | returns the fold of one round per sibling from the leaf `Proof[0]`, and the leaf itself for a one-element proof; its constraints hold exactly when the path's directions are boolean |
| Merkle.PathRootLastRound | prover/circuit.go:59-63 | the root of `n+1` path entries is round `n` applied to sibling `Proof[n]` and the root of the first `n` entries, with direction `Path[n-1]` |
| MerkleTree.PathFoldIsRoot | prover/circuit.go:58-64 | folding a leaf's siblings along the little-endian bits of its index yields the tree root |
| MerkleTree.SiblingsIgnoreLeaf | prover/circuit.go:89-95 | a leaf's authentication path does not depend on the leaf, so one path serves both the old and the new leaf |
| MerkleTree.UpdatedRoot | prover/circuit.go:93-98 | the path's fold with a new value is the root of the tree with that leaf replaced |
| Insertion.InsertionProof | prover/circuit.go:77-102 | returns `PreRoot` for an empty batch and otherwise the root with `IdComms[BatchSize-1]` at the last slot, which equals the carried root chain; its constraints hold exactly when every iteration's do |
| Insertion.InsertionHoldsIff | prover/circuit.go:81-92 | the gadget is satisfied exactly when every slot `StartIndex+i` fits in `Depth` bits and holds `emptyLeaf` under the root carried from iteration `i-1` |
| Insertion.HoldsBelowAll | prover/circuit.go:79-99 | the constraints accumulated over the first `k` iterations hold exactly when each of those iterations' constraints holds |
| Insertion.SlotRoot | prover/circuit.go:88-93 | for an honest witness, the root `VerifyProof` computes in iteration `i` for any leaf is the root of the tree after `i` insertions with that leaf written at slot `StartIndex+i` |
| Insertion.HonestIteration | prover/circuit.go:81-90 | every iteration of an honest witness meets its constraints: the index fits, the path bits are boolean, and the empty-leaf root is the carried root |
| Insertion.HonestCarriedRoot | prover/circuit.go:93-98 | for an honest witness, the root carried into iteration `i` is the tree root after the first `i` insertions |
| Insertion.HonestInsertionSatisfies | prover/circuit.go:77-102 | an honest witness (empty slots, true authentication paths) satisfies the gadget, and the gadget returns the root of the tree with the batch inserted |
| Circuit.WriteBigEndian | prover/circuit.go:171-175 | one `ToBinaryBigEndian` followed by `kh.Write` appends exactly the value's big-endian bits; on whole bytes the error return cannot happen |
| Circuit.WriteInputs | prover/circuit.go:163-195 | the hasher receives `StartIndex`, `PreRoot`, `PostRoot` and then the commitments, in order, as big-endian bits; the result is the conjunction of their range checks |
| Circuit.Define | prover/circuit.go:157-223 | the circuit is satisfied exactly when the inputs fit their widths, `InputHash` is the byte-swapped digest of a Keccak hasher of declared length `(BatchSize+2)*256+32` over those bits, the insertion gadget holds, and its root is `PostRoot` |
| Bytes.FixedBigEndianAt | prover/circuit.go:168-170 | byte `k` of the `width`-byte big-endian encoding is `x / 256^(width-1-k)` modulo 256, the byte order of a Solidity `uintN` |
| Bytes.MinimalBigEndianUnique | prover/deletion_proving_system.go:58-59 | `big.Int.Bytes()` is the only big-endian byte string without a leading zero byte that has its value |
| Gnark.ToFromBinary | prover/circuit.go:138-141 | the little-endian decomposition that `ToBinary` constrains is unique: any boolean bit pattern is the decomposition of its own value |
| Circuit.HashedBitsLayout | prover/circuit.go:158-195 | the hashed bits number exactly the declared `(BatchSize+2)*256+32` and are laid out `StartIndex(32) ‖ PreRoot(256) ‖ PostRoot(256) ‖ IdComms` |
| Circuit.DecodeCommitmentBits | prover/circuit.go:189-195 | when every commitment fits in 256 bits (the range checks of its `ToBinary`), the commitment blocks, read 256 bits at a time, give back the commitments in order |
| Circuit.HashedBitsDecode | prover/circuit.go:168-195 | when the range checks hold, every input can be read back from its block of the hashed bits |
| Circuit.HashedBitsInjective | prover/circuit.go:158-195 | two circuits with the same batch size whose range checks hold and that hash the same bits have the same start index, roots and commitments |
| Circuit.HashedBitsArePackedInputs | prover/circuit.go:168-170 | the hashed bytes are the packed big-endian encoding `uint32 ‖ uint256 ‖ uint256 ‖ uint256…` that the contract hashes |
| Circuit.InputHashIsDigestValue | prover/circuit.go:197-205 | in a satisfied circuit, `InputHash` is the digest read as a big-endian 256-bit number |
| Circuit.HonestCircuitSatisfied | prover/circuit.go:157-223 | an honest insertion witness whose inputs fit their widths (32 bits for `StartIndex`, 256 for the roots and commitments), together with the correct digest and post-root, satisfies the circuit |
| Circuit.SatisfiedPostRoot | prover/circuit.go:207-220 | a satisfied circuit over an honest witness has the root of the updated tree as `PostRoot` |
| Deletion.FirstWrongProof | prover/deletion_proving_system.go:37-41 | finds no proof exactly when every proof has the depth; otherwise finds the smallest index whose proof has a different length |
| Deletion.DeletionParameters.ValidateShape | prover/deletion_proving_system.go:27-43 | no error exactly when the three list lengths equal `batchSize` and every proof has `treeDepth` entries; otherwise reports the first failing check in the order commitments, proofs, indices, proof sizes, with the actual length; once all three counts are right every error is a proof-size error, naming the smallest offending index and its length |
| Deletion.IndexBytes | prover/deletion_proving_system.go:53-57 | the serialised indices take exactly 4 bytes per index |
| Deletion.IndexBytesChunk | prover/deletion_proving_system.go:53-57 | bytes `4i..4i+3` are the 4-byte big-endian encoding of index `i`, and read back as that index |
| Deletion.DecodeIndexBytes | prover/deletion_proving_system.go:53-57 | decoding the serialisation chunk by chunk gives back the index list |
| Deletion.InputHashDataLayout | prover/deletion_proving_system.go:51-59 | the hashed bytes are the index chunks, then the bytes of `PreRoot`, then those of `PostRoot`; each root's bytes read back as the root |
| Deletion.InputHashDataAmbiguous | prover/deletion_proving_system.go:58-59 | with `big.Int.Bytes()`, the pairs `(0x01, 0x0203)` and `(0x0102, 0x03)` produce the same bytes `01 02 03` |
| Deletion.PackedInputHashDataLayout | prover/deletion_proving_system.go:45-49 | in the fixed-width `uint32…‖uint256‖uint256` layout every field sits at a fixed offset and reads back as itself for roots below 2^256 |
| Deletion.FullWidthRootsArePadded | prover/deletion_proving_system.go:58-59 | for roots with a non-zero top byte, the minimal encodings equal the fixed 32-byte encodings |
| Deletion.PaddedRootsAreFullWidth | prover/deletion_proving_system.go:58-59 | conversely, for roots below 2^256, the hashed bytes equal the fixed 32-byte layout only when both roots have a non-zero top byte |
| Deletion.DeletionParameters.ComputeInputHashDeletion | prover/deletion_proving_system.go:50-64 | `InputHash` becomes the big-endian value, below 2^256, of the Keccak-256 digest of the serialised data; no other field changes |
| Deletion.ProvingSystem.ProveDeletion | prover/deletion_proving_system.go:93-133 | a shape error is returned as is, before the backend is involved; otherwise the result is the backend's result on the element-by-element copy of the request (`AssignmentOf`), its error value carried unchanged under the model's `BackendError` tag |
| Deletion.ValidatedAssignmentShape | prover/deletion_proving_system.go:93-121 | a request that passes `ValidateShape` gives an assignment with `BatchSize` indices, commitments and proofs, each proof with `TreeDepth` siblings, the shape the deletion circuit is compiled for |

## Left out

- Poseidon2 and Keccak-256 internals: the `poseidon` and `keccak` packages are not part of this model. The hashes are function parameters, and collision resistance is never assumed, so no soundness statement is made that would need it.
- BN254 arithmetic: values are unbounded naturals. The model reduces neither `StartIndex + i` nor the 256-bit digest modulo the scalar field. Wherever the source relies on a bound, it is stated as a range-check conjunct or as a precondition.
- Merkle.ProofRound: for a direction other than 0 or 1 the model's `Select` yields its second argument. gnark's arithmetic select, `y + b*(x-y)`, is not modelled. The `AssertIsBoolean` conjunct, which appears in the constraints that `Merkle.VerifyProof` returns, rejects such a direction anyway.
- Insertion.InsertionProof: for a Merkle proof longer than `Depth` the Go code would index past the end of the path. The model excludes that case with a precondition instead of modelling the panic.
- Insertion.InsertionProof and Circuit.Define: with fewer than `BatchSize` commitments or Merkle proofs, Go indexes past the end of the slice and panics (prover/circuit.go:89, 94, 190; the comments at lines 85-87 state the lengths as the gadget's invariant). The model excludes that case with the same precondition (`WellShaped`, `Shaped`) instead of modelling the panic.
- Circuit.Define and Circuit.WriteBigEndian: the `return err` branches after `ToBinaryBigEndian` and `FromBinaryBigEndian` cannot be reached, because every width is a whole number of bytes and the digest has 256 bits. The model reads the success value, whose precondition the verifier checks, and returns the satisfaction flag.
- Compilation and Groth16: `frontend.Compile`, `frontend.NewWitness`, `groth16.Setup/Prove/Verify`, `BuildR1CSDeletion`, `SetupDeletion` and `VerifyDeletion` are opaque cryptographic backend calls. `ProveDeletion` receives `NewWitness` followed by `Prove` as one function parameter.
- `DeletionMbuCircuit` and its `Define`: they are not part of this model. `ProveDeletion` builds the assignment as a plain record.
- Logging, the text of the `fmt.Errorf` and `Error()` messages, and concurrency. Errors are tagged records that carry the field and the actual length.
- The `binary.Write` error path of `ComputeInputHashDeletion`, which cannot fail for `[]uint32`. The method therefore returns nothing.
- Negative `big.Int` values: every root and hash is non-negative here.
