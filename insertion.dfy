/** The chained batch-insertion gadget `InsertionProof` of prover/circuit.go:
    for each batch position in turn it proves that the slot at
    `StartIndex + i` is empty under the carried root, then carries forward the
    root with `IdComms[i]` written into that slot, on the same siblings. */
module Insertion {
  import opened Gnark
  import opened Merkle
  import MerkleTree

  /** `emptyLeaf`: the value of an unoccupied slot. */
  const EmptyLeaf: nat := 0

  /** The fields of the `InsertionProof` gadget. */
  datatype InsertionInputs = InsertionInputs(
    startIndex: nat,
    preRoot: nat,
    idComms: seq<nat>,
    merkleProofs: seq<seq<nat>>,
    batchSize: nat,
    depth: nat)

  /** What the loop indexes without going out of bounds: a commitment and a
      proof per batch position, and no proof longer than the `Depth` bits of
      the index (a longer one would read past the end of the path). */
  predicate WellShaped(g: InsertionInputs) {
    && |g.idComms| >= g.batchSize
    && |g.merkleProofs| >= g.batchSize
    && forall i :: 0 <= i < g.batchSize ==> |g.merkleProofs[i]| <= g.depth
  }

  /** `currentPath` of iteration `i`: the `Depth` little-endian bits of
      `StartIndex + i`. */
  function IndexPath(g: InsertionInputs, i: nat): seq<nat> {
    ToBinary(g.startIndex + i, g.depth)
  }

  /** The root `VerifyProof` computes in iteration `i` for leaf `leaf`. */
  function LeafRoot(poseidon: Poseidon2, g: InsertionInputs, leaf: nat, i: nat): nat
    requires WellShaped(g) && i < g.batchSize
  {
    PathRoot(poseidon, [leaf] + g.merkleProofs[i], IndexPath(g, i))
  }

  /** `prevRoot` at the start of iteration `i`: `PreRoot`, then the root with
      `IdComms[i-1]` written in by the previous iteration. */
  function CarriedRoot(poseidon: Poseidon2, g: InsertionInputs, i: nat): nat
    requires WellShaped(g) && i <= g.batchSize
  {
    if i == 0 then g.preRoot else LeafRoot(poseidon, g, g.idComms[i - 1], i - 1)
  }

  /** The constraints of iteration `i`: `ToBinary`'s range check on the index,
      the boolean checks of the path's rounds, and the assertion that the
      empty-leaf root is the carried root. */
  predicate IterationHolds(poseidon: Poseidon2, g: InsertionInputs, i: nat)
    requires WellShaped(g) && i < g.batchSize
  {
    && FitsIn(g.startIndex + i, g.depth)
    && DirectionsBoolean(IndexPath(g, i), |g.merkleProofs[i]|)
    && LeafRoot(poseidon, g, EmptyLeaf, i) == CarriedRoot(poseidon, g, i)
  }

  /** Every iteration's constraints hold. */
  predicate InsertionHolds(poseidon: Poseidon2, g: InsertionInputs)
    requires WellShaped(g)
  {
    forall i :: 0 <= i < g.batchSize ==> IterationHolds(poseidon, g, i)
  }

  /** `InsertionProof.DefineGadget`: returns the final root and whether all
      constraints of the loop hold. */
  method InsertionProof(poseidon: Poseidon2, g: InsertionInputs) returns (root: nat, holds: bool)
    requires WellShaped(g)
    ensures g.batchSize == 0 ==> root == g.preRoot
    ensures g.batchSize > 0 ==> root == LeafRoot(poseidon, g, g.idComms[g.batchSize - 1], g.batchSize - 1)
    ensures root == CarriedRoot(poseidon, g, g.batchSize)
    ensures holds <==> InsertionHolds(poseidon, g)
  {
    var prevRoot := g.preRoot;
    holds := true;
    var i := 0;
    while i < g.batchSize
      invariant 0 <= i <= g.batchSize
      invariant prevRoot == CarriedRoot(poseidon, g, i)
      invariant holds == HoldsBelow(poseidon, g, i)
    {
      var currentIndex := g.startIndex + i;
      var currentPath := ToBinary(currentIndex, g.depth);
      var fits := FitsIn(currentIndex, g.depth);

      // Verify proof for empty leaf.
      var proof := [EmptyLeaf] + g.merkleProofs[i];
      var root0, ok0 := VerifyProof(poseidon, proof, currentPath);
      var matches := root0 == prevRoot;

      // Verify proof for idComm.
      proof := [g.idComms[i]] + g.merkleProofs[i];
      var root1, ok1 := VerifyProof(poseidon, proof, currentPath);

      IterationOutcome(poseidon, g, i, holds, prevRoot, root0, ok0, root1, ok1);
      holds := holds && fits && ok0 && matches && ok1;
      prevRoot := root1;
      i := i + 1;
    }
    root := prevRoot;
    HoldsBelowAll(poseidon, g, g.batchSize);
  }

  /** The constraints of the first `k` iterations hold. */
  predicate HoldsBelow(poseidon: Poseidon2, g: InsertionInputs, k: nat)
    requires WellShaped(g) && k <= g.batchSize
  {
    k == 0 || (HoldsBelow(poseidon, g, k - 1) && IterationHolds(poseidon, g, k - 1))
  }

  lemma {:induction false} HoldsBelowAll(poseidon: Poseidon2, g: InsertionInputs, k: nat)
    requires WellShaped(g) && k <= g.batchSize
    ensures HoldsBelow(poseidon, g, k) <==> forall j :: 0 <= j < k ==> IterationHolds(poseidon, g, j)
  {
    if k > 0 {
      HoldsBelowAll(poseidon, g, k - 1);
    }
  }

  /** What one iteration of `InsertionProof` finds out from its two
      `VerifyProof` calls. */
  lemma IterationOutcome(poseidon: Poseidon2, g: InsertionInputs, i: nat, holds: bool, prevRoot: nat,
                         root0: nat, ok0: bool, root1: nat, ok1: bool)
    requires WellShaped(g) && i < g.batchSize
    requires holds == HoldsBelow(poseidon, g, i) && prevRoot == CarriedRoot(poseidon, g, i)
    requires root0 == PathRoot(poseidon, [EmptyLeaf] + g.merkleProofs[i], IndexPath(g, i))
    requires ok0 <==> DirectionsBoolean(IndexPath(g, i), |[EmptyLeaf] + g.merkleProofs[i]| - 1)
    requires root1 == PathRoot(poseidon, [g.idComms[i]] + g.merkleProofs[i], IndexPath(g, i))
    requires ok1 <==> DirectionsBoolean(IndexPath(g, i), |[g.idComms[i]] + g.merkleProofs[i]| - 1)
    ensures ok1 == ok0
    ensures (FitsIn(g.startIndex + i, g.depth) && ok0 && root0 == prevRoot) == IterationHolds(poseidon, g, i)
    ensures (holds && FitsIn(g.startIndex + i, g.depth) && ok0 && root0 == prevRoot && ok1) == HoldsBelow(poseidon, g, i + 1)
    ensures root1 == CarriedRoot(poseidon, g, i + 1)
  {
  }

  /** Slot `StartIndex + i` fits in `Depth` bits and holds the empty leaf
      under the root carried into iteration `i`. */
  predicate SlotEmptyUnderCarriedRoot(poseidon: Poseidon2, g: InsertionInputs, i: nat)
    requires WellShaped(g) && i < g.batchSize
  {
    FitsIn(g.startIndex + i, g.depth) && LeafRoot(poseidon, g, EmptyLeaf, i) == CarriedRoot(poseidon, g, i)
  }

  /** Index bits are boolean, so the gadget is satisfied exactly when every
      slot of the batch fits and is empty under the root carried from the
      iteration before. */
  lemma InsertionHoldsIff(poseidon: Poseidon2, g: InsertionInputs)
    requires WellShaped(g)
    ensures InsertionHolds(poseidon, g) <==>
      forall i :: 0 <= i < g.batchSize ==> SlotEmptyUnderCarriedRoot(poseidon, g, i)
  {
    forall i | 0 <= i < g.batchSize
      ensures IterationHolds(poseidon, g, i) <==> SlotEmptyUnderCarriedRoot(poseidon, g, i)
    {
      var path := IndexPath(g, i);
      assert AllBoolean(path);
      assert DirectionsBoolean(path, |g.merkleProofs[i]|);
    }
  }

  /** `tree` with `comms[0..k)` written at slots `start .. start + k - 1`. */
  function Inserted(tree: seq<nat>, start: nat, comms: seq<nat>, k: nat): (r: seq<nat>)
    requires start + k <= |tree| && k <= |comms|
    ensures |r| == |tree|
  {
    if k == 0 then tree else Inserted(tree, start, comms, k - 1)[start + k - 1 := comms[k - 1]]
  }

  lemma {:induction false} InsertedAt(tree: seq<nat>, start: nat, comms: seq<nat>, k: nat, j: nat)
    requires start + k <= |tree| && k <= |comms| && j < |tree|
    ensures Inserted(tree, start, comms, k)[j] == if start <= j < start + k then comms[j - start] else tree[j]
  {
    if k > 0 {
      InsertedAt(tree, start, comms, k - 1, j);
    }
  }

  /** An honest insertion witness for `tree`: `PreRoot` is its root, the
      batch's slots are empty, and proof `i` is the authentication path of
      slot `StartIndex + i` once the first `i` commitments are in. */
  predicate HonestWitness(poseidon: Poseidon2, g: InsertionInputs, tree: seq<nat>) {
    && WellShaped(g)
    && |tree| == Pow2(g.depth)
    && g.startIndex + g.batchSize <= |tree|
    && MerkleTree.Root(poseidon, tree, g.depth) == g.preRoot
    && (forall j :: g.startIndex <= j < g.startIndex + g.batchSize ==> tree[j] == EmptyLeaf)
    && (forall i :: 0 <= i < g.batchSize ==> ProofIsPath(poseidon, g, tree, i))
  }

  /** Proof `i` is the authentication path of slot `StartIndex + i` in the
      tree holding the first `i` commitments. */
  predicate ProofIsPath(poseidon: Poseidon2, g: InsertionInputs, tree: seq<nat>, i: nat)
    requires |tree| == Pow2(g.depth) && g.startIndex + g.batchSize <= |tree|
    requires i < g.batchSize <= |g.idComms| && i < |g.merkleProofs|
  {
    g.merkleProofs[i] == MerkleTree.Siblings(poseidon, Inserted(tree, g.startIndex, g.idComms, i), g.depth, g.startIndex + i)
  }

  /** The root of iteration `i` for any leaf is the path fold over proof `i`. */
  lemma LeafRootIsFold(poseidon: Poseidon2, g: InsertionInputs, leaf: nat, i: nat)
    requires WellShaped(g) && i < g.batchSize
    ensures LeafRoot(poseidon, g, leaf, i) == FoldRounds(poseidon, leaf, g.merkleProofs[i], IndexPath(g, i))
  {
    assert ([leaf] + g.merkleProofs[i])[1..] == g.merkleProofs[i];
  }

  /** For an honest witness, the root of iteration `i` for `leaf` is the
      root of the tree holding the first `i` commitments with `leaf` written
      at slot `StartIndex + i`. */
  lemma SlotRoot(poseidon: Poseidon2, g: InsertionInputs, tree: seq<nat>, i: nat, leaf: nat)
    requires HonestWitness(poseidon, g, tree) && i < g.batchSize
    ensures LeafRoot(poseidon, g, leaf, i)
         == MerkleTree.Root(poseidon, Inserted(tree, g.startIndex, g.idComms, i)[g.startIndex + i := leaf], g.depth)
  {
    var before := Inserted(tree, g.startIndex, g.idComms, i);
    assert ProofIsPath(poseidon, g, tree, i);
    LeafRootIsFold(poseidon, g, leaf, i);
    MerkleTree.UpdatedRoot(poseidon, before, g.depth, g.startIndex + i, leaf);
  }

  /** The root carried into iteration `i` of an honest witness is the root of
      the tree after the first `i` insertions. */
  lemma HonestCarriedRoot(poseidon: Poseidon2, g: InsertionInputs, tree: seq<nat>, i: nat)
    requires HonestWitness(poseidon, g, tree) && i <= g.batchSize
    ensures CarriedRoot(poseidon, g, i) == MerkleTree.Root(poseidon, Inserted(tree, g.startIndex, g.idComms, i), g.depth)
  {
    if i > 0 {
      SlotRoot(poseidon, g, tree, i - 1, g.idComms[i - 1]);
    }
  }

  /** Iteration `i` of an honest witness meets its constraints. */
  lemma HonestIteration(poseidon: Poseidon2, g: InsertionInputs, tree: seq<nat>, i: nat)
    requires HonestWitness(poseidon, g, tree) && i < g.batchSize
    ensures IterationHolds(poseidon, g, i)
  {
    var slot := g.startIndex + i;
    var before := Inserted(tree, g.startIndex, g.idComms, i);
    InsertedAt(tree, g.startIndex, g.idComms, i, slot);
    assert before[slot := EmptyLeaf] == before;
    SlotRoot(poseidon, g, tree, i, EmptyLeaf);
    HonestCarriedRoot(poseidon, g, tree, i);
    assert AllBoolean(IndexPath(g, i));
  }

  /** Completeness of the gadget: an honest witness satisfies every
      constraint, and the gadget returns the root of the tree with the whole
      batch inserted. */
  lemma HonestInsertionSatisfies(poseidon: Poseidon2, g: InsertionInputs, tree: seq<nat>)
    requires HonestWitness(poseidon, g, tree)
    ensures InsertionHolds(poseidon, g)
    ensures CarriedRoot(poseidon, g, g.batchSize)
         == MerkleTree.Root(poseidon, Inserted(tree, g.startIndex, g.idComms, g.batchSize), g.depth)
  {
    HonestCarriedRoot(poseidon, g, tree, g.batchSize);
    forall i | 0 <= i < g.batchSize ensures IterationHolds(poseidon, g, i) {
      HonestIteration(poseidon, g, tree, i);
    }
  }
}
