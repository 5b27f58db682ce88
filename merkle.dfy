/** The Merkle gadgets of prover/circuit.go: `ProofRound` (one level) and
    `VerifyProof` (a whole authentication path). */
module Merkle {
  import opened Gnark

  /** The Poseidon2 two-to-one hash gadget, left uninterpreted. */
  type Poseidon2 = (nat, nat) -> nat

  /** The value `ProofRound.DefineGadget` returns: the two selects order the
      pair so that `hash` is the left input when `direction` is 1 and the
      right input when it is 0. The gadget also asserts `IsBoolean(direction)`. */
  function ProofRound(poseidon: Poseidon2, direction: nat, hash: nat, sibling: nat): (r: nat)
    ensures direction == 1 ==> r == poseidon(hash, sibling)
    ensures direction == 0 ==> r == poseidon(sibling, hash)
  {
    var d1 := Select(direction, hash, sibling);
    var d2 := Select(direction, sibling, hash);
    poseidon(d1, d2)
  }

  /** The running value after one `ProofRound` per sibling, the `i`-th round
      taking direction `path[i]`, sibling `siblings[i]` as its `Hash` and the
      running value as its `Sibling`. */
  function FoldRounds(poseidon: Poseidon2, sum: nat, siblings: seq<nat>, path: seq<nat>): nat
    requires |siblings| <= |path|
    decreases |siblings|
  {
    if siblings == [] then sum
    else FoldRounds(poseidon, ProofRound(poseidon, path[0], siblings[0], sum), siblings[1..], path[1..])
  }

  /** The root `VerifyProof` computes for `proof = [leaf] + siblings`. */
  function PathRoot(poseidon: Poseidon2, proof: seq<nat>, path: seq<nat>): nat
    requires 1 <= |proof| && |proof| - 1 <= |path|
  {
    FoldRounds(poseidon, proof[0], proof[1..], path)
  }

  /** The conjunction of the `AssertIsBoolean`s of the first `n` rounds. */
  predicate DirectionsBoolean(path: seq<nat>, n: nat)
    requires n <= |path|
  {
    forall i :: 0 <= i < n ==> IsBoolean(path[i])
  }

  /** `VerifyProof.DefineGadget`: starting from the leaf `proof[0]`, one
      `ProofRound` per sibling `proof[i]` with direction `path[i-1]`. Returns
      the root and whether every round's constraint holds. */
  method VerifyProof(poseidon: Poseidon2, proof: seq<nat>, path: seq<nat>) returns (sum: nat, holds: bool)
    requires 1 <= |proof| && |proof| - 1 <= |path|
    ensures sum == PathRoot(poseidon, proof, path)
    ensures |proof| == 1 ==> sum == proof[0]
    ensures holds <==> DirectionsBoolean(path, |proof| - 1)
  {
    sum := proof[0];
    holds := true;
    var i := 1;
    while i < |proof|
      invariant 1 <= i <= |proof|
      invariant FoldRounds(poseidon, sum, proof[i..], path[i - 1..]) == PathRoot(poseidon, proof, path)
      invariant holds <==> DirectionsBoolean(path, i - 1)
    {
      assert proof[i..][1..] == proof[i + 1..] && path[i - 1..][1..] == path[i..];
      holds := holds && IsBoolean(path[i - 1]);
      sum := ProofRound(poseidon, path[i - 1], proof[i], sum);
      i := i + 1;
    }
  }

  /** Folding one more sibling applies one more round on top. */
  lemma {:induction false} FoldRoundsSnoc(poseidon: Poseidon2, sum: nat, siblings: seq<nat>, s: nat, path: seq<nat>)
    requires |siblings| + 1 <= |path|
    ensures FoldRounds(poseidon, sum, siblings + [s], path)
         == ProofRound(poseidon, path[|siblings|], s, FoldRounds(poseidon, sum, siblings, path))
    decreases |siblings|
  {
    if siblings != [] {
      assert (siblings + [s])[1..] == siblings[1..] + [s];
      FoldRoundsSnoc(poseidon, ProofRound(poseidon, path[0], siblings[0], sum), siblings[1..], s, path[1..]);
    }
  }

  /** The root of a path of `n + 1` entries is the last round applied to the
      root of its first `n` entries: one round per sibling, in order. */
  lemma PathRootLastRound(poseidon: Poseidon2, proof: seq<nat>, path: seq<nat>)
    requires 2 <= |proof| && |proof| - 1 <= |path|
    ensures var n := |proof| - 1;
      PathRoot(poseidon, proof, path)
      == ProofRound(poseidon, path[n - 1], proof[n], PathRoot(poseidon, proof[..n], path))
  {
    var n := |proof| - 1;
    assert proof[1..] == proof[..n][1..] + [proof[n]];
    FoldRoundsSnoc(poseidon, proof[0], proof[..n][1..], proof[n], path);
  }
}
