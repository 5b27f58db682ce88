/** The top-level insertion circuit `MbuCircuit` of prover/circuit.go as a
    satisfaction predicate, and `Define` as the method that builds it: it
    feeds `StartIndex ‖ PreRoot ‖ PostRoot ‖ IdComms[0] ‖ … ‖ IdComms[BatchSize-1]`
    (32, 256, 256, 256, … bits, each big-endian) to a Keccak gadget, asserts
    that the byte-swapped digest is `InputHash`, and asserts that the batch
    insertion ends at `PostRoot`. */
module Circuit {
  import opened Wrappers
  import opened Gnark
  import opened Endianness
  import opened Merkle
  import opened Insertion
  import MerkleTree
  import Bytes

  /** A Keccak-256 digest as the gadget returns it: 256 boolean bits. */
  type Digest = d: seq<nat> | |d| == 256 && AllBoolean(d) witness seq(256, _ => 0)

  /** The Keccak-256 gadget, left uninterpreted: the digest of the bits
      written to a hasher created for a declared input length. */
  type KeccakHash = (nat, seq<nat>) -> Digest

  /** The stateful hasher `keccak.NewKeccak256(api, inputLength)`: `Write`
      appends bits, `Sum` digests everything written. */
  class Keccak256 {
    const hash: KeccakHash
    const inputLength: nat
    var written: seq<nat>

    constructor (hash: KeccakHash, inputLength: nat)
      ensures this.hash == hash && this.inputLength == inputLength
      ensures written == []
    {
      this.hash := hash;
      this.inputLength := inputLength;
      written := [];
    }

    method Write(bits: seq<nat>)
      modifies this
      ensures written == old(written) + bits
    {
      written := written + bits;
    }

    function Sum(): Digest
      reads this
    {
      hash(inputLength, written)
    }
  }

  /** The fields of `MbuCircuit`. */
  datatype MbuCircuit = MbuCircuit(
    inputHash: nat,
    startIndex: nat,
    preRoot: nat,
    postRoot: nat,
    idComms: seq<nat>,
    merkleProofs: seq<seq<nat>>,
    batchSize: nat,
    depth: nat)

  /** The `InsertionProof` gadget `Define` calls. */
  function InsertionOf(c: MbuCircuit): InsertionInputs {
    InsertionInputs(c.startIndex, c.preRoot, c.idComms, c.merkleProofs, c.batchSize, c.depth)
  }

  /** What `Define` indexes without going out of bounds. */
  predicate Shaped(c: MbuCircuit) {
    WellShaped(InsertionOf(c))
  }

  /** The Keccak input length `Define` declares. */
  function DeclaredLength(c: MbuCircuit): nat {
    (c.batchSize + 2) * 256 + 32
  }

  /** `v` as `size` big-endian bits. */
  function BigEndianBits(v: nat, size: nat): seq<nat>
    requires size % 8 == 0
  {
    ByteSwap(ToBinary(v, size))
  }

  /** The commitments' part of the hashed bits. */
  function CommitmentBits(idComms: seq<nat>, k: nat): seq<nat>
    requires k <= |idComms|
  {
    if k == 0 then [] else CommitmentBits(idComms, k - 1) + Word(idComms[k - 1])
  }

  /** The bits of `StartIndex ‖ PreRoot ‖ PostRoot`. */
  function HeaderBits(c: MbuCircuit): seq<nat> {
    BigEndianBits(c.startIndex, 32) + BigEndianBits(c.preRoot, 256) + BigEndianBits(c.postRoot, 256)
  }

  /** Everything `Define` writes to the hasher, in order. */
  function HashedBits(c: MbuCircuit): seq<nat>
    requires Shaped(c)
  {
    HeaderBits(c) + CommitmentBits(c.idComms, c.batchSize)
  }

  /** The range checks of the `ToBinary` calls behind `ToBinaryBigEndian`. */
  predicate InputsFit(c: MbuCircuit)
    requires Shaped(c)
  {
    && FitsIn(c.startIndex, 32)
    && FitsIn(c.preRoot, 256)
    && FitsIn(c.postRoot, 256)
    && CommitmentsFit(c.idComms, c.batchSize)
  }

  /** The range checks of the first `k` commitments. */
  predicate CommitmentsFit(idComms: seq<nat>, k: nat)
    requires k <= |idComms|
  {
    k == 0 || (CommitmentsFit(idComms, k - 1) && FitsIn(idComms[k - 1], 256))
  }

  /** The digest of the Keccak gadget over everything `Define` writes. */
  function DigestOf(keccak: KeccakHash, c: MbuCircuit): Digest
    requires Shaped(c)
  {
    keccak(DeclaredLength(c), HashedBits(c))
  }

  /** A digest read back into a value by `FromBinaryBigEndian`. */
  function DigestValue(d: Digest): nat {
    FromBinary(ByteSwap(d))
  }

  /** The digest's bits as the 32 bytes the hash produces. */
  function DigestBytes(d: Digest): seq<Bytes.byte> {
    BitsToBytes(d)
  }

  /** The circuit is satisfied: every input fits its width, the
      byte-swapped Keccak digest of the packed inputs is `InputHash`, the
      insertion gadget's constraints hold and its root is `PostRoot`. */
  predicate Satisfied(poseidon: Poseidon2, keccak: KeccakHash, c: MbuCircuit)
    requires Shaped(c)
  {
    && InputsFit(c)
    && c.inputHash == DigestValue(DigestOf(keccak, c))
    && InsertionHolds(poseidon, InsertionOf(c))
    && CarriedRoot(poseidon, InsertionOf(c), c.batchSize) == c.postRoot
  }

  /** The first half of `Define`: writes the big-endian bits of every
      input to `kh`, in order, and reports whether the range checks of
      their `ToBinary` calls hold. */
  method WriteInputs(kh: Keccak256, c: MbuCircuit) returns (fits: bool)
    requires Shaped(c)
    modifies kh
    ensures fits == InputsFit(c)
    ensures kh.written == old(kh.written) + HashedBits(c)
  {
    ghost var start := kh.written;
    WriteBigEndian(kh, c.startIndex, 32);
    WriteBigEndian(kh, c.preRoot, 256);
    AppendAssoc(start, BigEndianBits(c.startIndex, 32), BigEndianBits(c.preRoot, 256));
    WriteBigEndian(kh, c.postRoot, 256);
    AppendAssoc(start, BigEndianBits(c.startIndex, 32) + BigEndianBits(c.preRoot, 256), BigEndianBits(c.postRoot, 256));
    fits := FitsIn(c.startIndex, 32) && FitsIn(c.preRoot, 256) && FitsIn(c.postRoot, 256);

    ghost var header := kh.written;
    var i := 0;
    while i < c.batchSize
      invariant 0 <= i <= c.batchSize
      invariant kh.written == header + CommitmentBits(c.idComms, i)
      invariant fits == (FitsIn(c.startIndex, 32) && FitsIn(c.preRoot, 256) && FitsIn(c.postRoot, 256)
        && CommitmentsFit(c.idComms, i))
    {
      WriteBigEndian(kh, c.idComms[i], 256);
      fits := fits && FitsIn(c.idComms[i], 256);
      AppendAssoc(header, CommitmentBits(c.idComms, i), Word(c.idComms[i]));
      i := i + 1;
    }
    AppendAssoc(start, HeaderBits(c), CommitmentBits(c.idComms, c.batchSize));
  }

  /** One `bits, err = ToBinaryBigEndian(v, size, api)` followed by
      `kh.Write(bits...)`; the error return cannot happen on whole bytes. */
  method WriteBigEndian(kh: Keccak256, v: nat, size: nat)
    requires size % 8 == 0
    modifies kh
    ensures kh.written == old(kh.written) + BigEndianBits(v, size)
  {
    BigEndianBitsSucceed(v, size);
    var bits := ToBinaryBigEndian(v, size).value;
    kh.Write(bits);
  }

  /** `MbuCircuit.Define`: yields exactly the satisfaction of the circuit.
      Its error returns cannot happen: every width is a whole number of
      bytes, and the digest has 256 bits. */
  method Define(poseidon: Poseidon2, keccak: KeccakHash, c: MbuCircuit) returns (satisfied: bool)
    requires Shaped(c)
    ensures satisfied == Satisfied(poseidon, keccak, c)
  {
    var kh := new Keccak256(keccak, DeclaredLength(c));
    satisfied := WriteInputs(kh, c);
    SumIsDigest(kh, keccak, c);
    FromBinaryBigEndianValue(kh.Sum());
    var sum := FromBinaryBigEndian(kh.Sum()).value;
    satisfied := satisfied && c.inputHash == sum;

    var root, holds := InsertionProof(poseidon, InsertionOf(c));
    satisfied := satisfied && holds && root == c.postRoot;
  }

  /** A hasher created as `Define` creates it and fed the hashed bits
      yields the digest of the circuit. */
  lemma SumIsDigest(kh: Keccak256, keccak: KeccakHash, c: MbuCircuit)
    requires Shaped(c)
    requires kh.hash == keccak && kh.inputLength == DeclaredLength(c)
    requires kh.written == [] + HashedBits(c)
    ensures kh.Sum() == DigestOf(keccak, c)
  {
    EmptyAppend(HashedBits(c));
  }

  lemma EmptyAppend(h: seq<nat>)
    ensures [] + h == h
  {
  }

  /** `ToBinaryBigEndian` succeeds on whole bytes, with the bytes of the
      little-endian decomposition reversed. */
  lemma BigEndianBitsSucceed(v: nat, size: nat)
    requires size % 8 == 0
    ensures ToBinaryBigEndian(v, size) == Success(BigEndianBits(v, size))
  {
  }

  lemma TakeSnoc(s: seq<nat>, k: nat)
    requires 0 < k <= |s|
    ensures s[..k] == s[..k - 1] + [s[k - 1]]
  {
  }

  lemma HeaderSlices(a: seq<nat>, b: seq<nat>, d: seq<nat>, e: seq<nat>)
    requires |a| == 32 && |b| == 256 && |d| == 256
    ensures (a + b + d + e)[..32] == a
    ensures (a + b + d + e)[32..288] == b
    ensures (a + b + d + e)[288..544] == d
    ensures (a + b + d + e)[544..] == e
  {
  }

  lemma AppendAssoc(a: seq<nat>, b: seq<nat>, c: seq<nat>)
    ensures (a + b) + c == a + (b + c)
  {
  }

  lemma {:induction false} CommitmentBitsLength(idComms: seq<nat>, k: nat)
    requires k <= |idComms|
    ensures |CommitmentBits(idComms, k)| == 256 * k
  {
    if k > 0 {
      CommitmentBitsLength(idComms, k - 1);
    }
  }

  /** The commitment bits are whole 256-bit blocks. */
  lemma CommitmentBitsAligned(idComms: seq<nat>, k: nat)
    requires k <= |idComms|
    ensures |CommitmentBits(idComms, k)| % 256 == 0
  {
    CommitmentBitsLength(idComms, k);
    WholeBlocks(k);
  }

  lemma WholeBlocks(k: nat)
    ensures (256 * k) % 256 == 0
  {
  }

  /** The hashed bits have the declared length and the documented layout
      `StartIndex ‖ PreRoot ‖ PostRoot ‖ IdComms[0] ‖ … ‖ IdComms[BatchSize-1]`,
      with 32, 256, 256, 256, … big-endian bits. */
  lemma HashedBitsLayout(c: MbuCircuit)
    requires Shaped(c)
    ensures |HashedBits(c)| == DeclaredLength(c)
    ensures HashedBits(c)[..32] == BigEndianBits(c.startIndex, 32)
    ensures HashedBits(c)[32..288] == BigEndianBits(c.preRoot, 256)
    ensures HashedBits(c)[288..544] == BigEndianBits(c.postRoot, 256)
    ensures HashedBits(c)[544..] == CommitmentBits(c.idComms, c.batchSize)
  {
    CommitmentBitsLength(c.idComms, c.batchSize);
    HeaderSlices(BigEndianBits(c.startIndex, 32), BigEndianBits(c.preRoot, 256), BigEndianBits(c.postRoot, 256),
      CommitmentBits(c.idComms, c.batchSize));
  }

  /** Reads a sequence of 256-bit big-endian blocks back into values. */
  function DecodeBlocks(bits: seq<nat>): seq<nat>
    decreases |bits|
  {
    if |bits| < 256 then [] else [FromBinary(ByteSwap(bits[..256]))] + DecodeBlocks(bits[256..])
  }

  lemma {:induction false} DecodeBlocksAppend(front: seq<nat>, last: seq<nat>)
    requires |front| % 256 == 0 && |last| == 256
    ensures DecodeBlocks(front + last) == DecodeBlocks(front) + [FromBinary(ByteSwap(last))]
    decreases |front|
  {
    if |front| == 0 {
      assert front + last == last;
      assert last[..256] == last && last[256..] == [];
    } else {
      assert (front + last)[..256] == front[..256];
      assert (front + last)[256..] == front[256..] + last;
      DecodeBlocksAppend(front[256..], last);
    }
  }

  /** The commitment blocks read back as the commitments. */
  lemma {:induction false} DecodeCommitmentBits(idComms: seq<nat>, k: nat)
    requires k <= |idComms| && CommitmentsFit(idComms, k)
    ensures DecodeBlocks(CommitmentBits(idComms, k)) == idComms[..k]
  {
    if k > 0 {
      DecodeCommitmentBits(idComms, k - 1);
      CommitmentBitsAligned(idComms, k - 1);
      WordRoundTrip(idComms[k - 1]);
      DecodeSnoc(CommitmentBits(idComms, k - 1), Word(idComms[k - 1]), idComms[..k - 1], idComms[k - 1]);
      TakeSnoc(idComms, k);
    }
  }

  /** A 256-bit big-endian block. */
  function Word(v: nat): (r: seq<nat>)
    ensures |r| == 256
  {
    BigEndianBits(v, 256)
  }

  lemma WordRoundTrip(v: nat)
    requires FitsIn(v, 256)
    ensures FromBinary(ByteSwap(Word(v))) == v
  {
    RoundTrip(v, 256);
  }

  lemma DecodeSnoc(front: seq<nat>, last: seq<nat>, values: seq<nat>, v: nat)
    requires |front| % 256 == 0 && |last| == 256
    requires DecodeBlocks(front) == values && FromBinary(ByteSwap(last)) == v
    ensures DecodeBlocks(front + last) == values + [v]
  {
    DecodeBlocksAppend(front, last);
  }

  /** Every input can be read back from the hashed bits, provided the range
      checks hold: the three header blocks with `FromBinaryBigEndian`, the
      commitments block by block. */
  lemma HashedBitsDecode(c: MbuCircuit)
    requires Shaped(c) && InputsFit(c)
    ensures |HashedBits(c)| == DeclaredLength(c)
    ensures FromBinaryBigEndian(HashedBits(c)[..32]) == Success(c.startIndex)
    ensures FromBinaryBigEndian(HashedBits(c)[32..288]) == Success(c.preRoot)
    ensures FromBinaryBigEndian(HashedBits(c)[288..544]) == Success(c.postRoot)
    ensures DecodeBlocks(HashedBits(c)[544..]) == c.idComms[..c.batchSize]
  {
    HashedBitsLayout(c);
    RoundTrip(c.startIndex, 32);
    RoundTrip(c.preRoot, 256);
    RoundTrip(c.postRoot, 256);
    DecodeCommitmentBits(c.idComms, c.batchSize);
  }

  lemma RoundTrip(v: nat, size: nat)
    requires size % 8 == 0 && FitsIn(v, size)
    ensures FromBinaryBigEndian(BigEndianBits(v, size)) == Success(v)
    ensures FromBinary(ByteSwap(BigEndianBits(v, size))) == v
  {
    BigEndianRoundTrip(v, size);
    BigEndianBitsSucceed(v, size);
  }

  /** So the hash input determines the public inputs: two circuits of the
      same batch size whose range checks hold and that hash the same bits
      have the same start index, roots and commitments. */
  lemma HashedBitsInjective(c: MbuCircuit, d: MbuCircuit)
    requires Shaped(c) && Shaped(d) && InputsFit(c) && InputsFit(d)
    requires c.batchSize == d.batchSize && HashedBits(c) == HashedBits(d)
    ensures c.startIndex == d.startIndex && c.preRoot == d.preRoot && c.postRoot == d.postRoot
    ensures c.idComms[..c.batchSize] == d.idComms[..d.batchSize]
  {
    HashedBitsDecode(c);
    HashedBitsDecode(d);
  }

  /** The bytes the contract hashes: `StartIndex` as 4 big-endian bytes,
      then `PreRoot`, `PostRoot` and every commitment as 32. */
  function PackedInputs(c: MbuCircuit): (r: seq<Bytes.byte>)
    requires Shaped(c)
    ensures |r| == DeclaredLength(c) / 8
  {
    Bytes.FixedBigEndian(c.startIndex, 4) + Bytes.FixedBigEndian(c.preRoot, 32) + Bytes.FixedBigEndian(c.postRoot, 32)
      + PackedCommitments(c.idComms, c.batchSize)
  }

  function PackedCommitments(idComms: seq<nat>, k: nat): (r: seq<Bytes.byte>)
    requires k <= |idComms|
    ensures |r| == 32 * k
  {
    if k == 0 then [] else PackedCommitments(idComms, k - 1) + Bytes.FixedBigEndian(idComms[k - 1], 32)
  }

  /** The circuit hashes, byte for byte, the packed big-endian encoding of
      its inputs, which is what lets the contract compute `InputHash`
      without reordering bytes. */
  lemma HashedBitsArePackedInputs(c: MbuCircuit)
    requires Shaped(c)
    ensures AllBoolean(HashedBits(c)) && |HashedBits(c)| % 8 == 0
    ensures BitsToBytes(HashedBits(c)) == PackedInputs(c)
  {
    var a := BigEndianBits(c.startIndex, 32);
    var b := BigEndianBits(c.preRoot, 256);
    var d := BigEndianBits(c.postRoot, 256);
    BlockBytes(c.startIndex, 4);
    BlockBytes(c.preRoot, 32);
    BlockBytes(c.postRoot, 32);
    CommitmentBytes(c.idComms, c.batchSize);
    var comms := CommitmentBits(c.idComms, c.batchSize);
    BitsToBytesAppend(a, b);
    BitsToBytesAppend(a + b, d);
    BitsToBytesAppend(a + b + d, comms);
  }

  lemma BlockBytes(v: nat, width: nat)
    ensures |BigEndianBits(v, 8 * width)| == 8 * width
    ensures AllBoolean(BigEndianBits(v, 8 * width))
    ensures BitsToBytes(BigEndianBits(v, 8 * width)) == Bytes.FixedBigEndian(v, width)
  {
    BigEndianBitsAreBigEndianBytes(v, width);
    BigEndianBitsSucceed(v, 8 * width);
  }

  lemma {:induction false} CommitmentBytes(idComms: seq<nat>, k: nat)
    requires k <= |idComms|
    ensures |CommitmentBits(idComms, k)| % 8 == 0
    ensures AllBoolean(CommitmentBits(idComms, k))
    ensures BitsToBytes(CommitmentBits(idComms, k)) == PackedCommitments(idComms, k)
  {
    if k > 0 {
      CommitmentBytes(idComms, k - 1);
      BlockBytes(idComms[k - 1], 32);
      BitsToBytesAppend(CommitmentBits(idComms, k - 1), Word(idComms[k - 1]));
    }
  }

  /** `InputHash` is the Keccak digest read as a big-endian 256-bit number,
      the way the contract reads `keccak256(...)` as a `uint256`. */
  lemma InputHashIsDigestValue(poseidon: Poseidon2, keccak: KeccakHash, c: MbuCircuit)
    requires Shaped(c) && Satisfied(poseidon, keccak, c)
    ensures c.inputHash == Bytes.BigEndianValue(DigestBytes(DigestOf(keccak, c)))
  {
    FromBinarySwappedIsBigEndianValue(DigestOf(keccak, c));
  }

  /** Completeness: a circuit built from an honest insertion witness for
      `tree`, whose inputs fit their widths, whose `InputHash` is the
      digest of its inputs and whose `PostRoot` is the root after the
      batch, is satisfied. */
  lemma HonestCircuitSatisfied(poseidon: Poseidon2, keccak: KeccakHash, c: MbuCircuit, tree: seq<nat>)
    requires HonestWitness(poseidon, InsertionOf(c), tree)
    requires Shaped(c) && InputsFit(c)
    requires c.inputHash == DigestValue(DigestOf(keccak, c))
    requires c.postRoot == MerkleTree.Root(poseidon, Inserted(tree, c.startIndex, c.idComms, c.batchSize), c.depth)
    ensures Satisfied(poseidon, keccak, c)
  {
    HonestInsertionSatisfies(poseidon, InsertionOf(c), tree);
  }

  /** Conversely, a satisfied circuit over an honest insertion witness has
      the root of the updated tree as its `PostRoot`. */
  lemma SatisfiedPostRoot(poseidon: Poseidon2, keccak: KeccakHash, c: MbuCircuit, tree: seq<nat>)
    requires HonestWitness(poseidon, InsertionOf(c), tree)
    requires Shaped(c) && Satisfied(poseidon, keccak, c)
    ensures c.postRoot == MerkleTree.Root(poseidon, Inserted(tree, c.startIndex, c.idComms, c.batchSize), c.depth)
  {
    HonestInsertionSatisfies(poseidon, InsertionOf(c), tree);
  }
}
