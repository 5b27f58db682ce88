/** A reference model of the fixed-depth binary Merkle tree that the
    gadgets authenticate paths in: `2^depth` leaves, each level hashing
    adjacent pairs `(left, right)` of the level below with Poseidon2. Leaf
    index bit `k` (least significant first) says whether the node on level
    `k` is a right child. */
module MerkleTree {
  import opened Gnark
  import opened Merkle

  /** The level above `level`: node `k` hashes nodes `2k` and `2k+1`. */
  function Parents(poseidon: Poseidon2, level: seq<nat>): (r: seq<nat>)
    ensures |r| == |level| / 2
    decreases |level|
  {
    if |level| < 2 then [] else [poseidon(level[0], level[1])] + Parents(poseidon, level[2..])
  }

  /** Parent `k` hashes children `2k` and `2k+1`. */
  lemma ParentAt(poseidon: Poseidon2, level: seq<nat>, k: nat)
    requires k < |level| / 2
    ensures Parents(poseidon, level)[k] == poseidon(level[2 * k], level[2 * k + 1])
    decreases k
  {
    if k > 0 {
      ParentAt(poseidon, level[2..], k - 1);
      assert level[2..][2 * (k - 1)] == level[2 * k] && level[2..][2 * (k - 1) + 1] == level[2 * k + 1];
    }
  }

  /** The root of the tree over `leaves`. */
  function Root(poseidon: Poseidon2, leaves: seq<nat>, depth: nat): nat
    requires |leaves| == Pow2(depth)
    decreases depth
  {
    if depth == 0 then leaves[0] else Root(poseidon, Parents(poseidon, leaves), depth - 1)
  }

  /** The other child of a node's parent. */
  function SiblingIndex(index: nat): nat {
    if index % 2 == 0 then index + 1 else index - 1
  }

  /** The authentication path of leaf `index`: its sibling on every level,
      bottom level first. */
  function Siblings(poseidon: Poseidon2, leaves: seq<nat>, depth: nat, index: nat): (r: seq<nat>)
    requires |leaves| == Pow2(depth) && index < |leaves|
    ensures |r| == depth
    decreases depth
  {
    if depth == 0 then []
    else [leaves[SiblingIndex(index)]] + Siblings(poseidon, Parents(poseidon, leaves), depth - 1, index / 2)
  }

  /** The path fold of `VerifyProof`, seeded with leaf `index` and given its
      siblings and the bits of `index`, reaches the root of the tree. */
  lemma {:induction false} PathFoldIsRoot(poseidon: Poseidon2, leaves: seq<nat>, depth: nat, index: nat)
    requires |leaves| == Pow2(depth) && index < |leaves|
    ensures FoldRounds(poseidon, leaves[index], Siblings(poseidon, leaves, depth, index), ToBinary(index, depth))
         == Root(poseidon, leaves, depth)
    decreases depth
  {
    if depth > 0 {
      Halve(poseidon, leaves, depth, index);
      PathStep(poseidon, leaves, depth, index);
      PathFoldIsRoot(poseidon, Parents(poseidon, leaves), depth - 1, index / 2);
    }
  }

  /** Level `level` of `2^depth` nodes, `depth > 0`, splits into pairs under
      `2^(depth - 1)` parents, node `index` among them. */
  predicate Splits(poseidon: Poseidon2, level: seq<nat>, depth: nat, index: nat) {
    && depth > 0 && |level| == Pow2(depth) && index < |level| && |level| % 2 == 0
    && |Parents(poseidon, level)| == Pow2(depth - 1) && index / 2 < Pow2(depth - 1)
  }

  lemma Halve(poseidon: Poseidon2, level: seq<nat>, depth: nat, index: nat)
    requires depth > 0 && |level| == Pow2(depth) && index < |level|
    ensures Splits(poseidon, level, depth, index)
  {
    var half := Pow2(depth - 1);
    assert |level| == 2 * half;
  }

  /** One level of the fold: the first round reaches the parent, after which
      the fold continues on the level above. */
  lemma PathStep(poseidon: Poseidon2, leaves: seq<nat>, depth: nat, index: nat)
    requires Splits(poseidon, leaves, depth, index)
    ensures FoldRounds(poseidon, leaves[index], Siblings(poseidon, leaves, depth, index), ToBinary(index, depth))
         == FoldRounds(poseidon, Parents(poseidon, leaves)[index / 2],
                       Siblings(poseidon, Parents(poseidon, leaves), depth - 1, index / 2), ToBinary(index / 2, depth - 1))
    ensures Root(poseidon, leaves, depth) == Root(poseidon, Parents(poseidon, leaves), depth - 1)
  {
    var parents := Parents(poseidon, leaves);
    SiblingsStep(poseidon, leaves, depth, index);
    ToBinaryStep(index, depth);
    RoundIsParent(poseidon, leaves, index);
    RootStep(poseidon, leaves, depth, index);
    var rest := Siblings(poseidon, parents, depth - 1, index / 2);
    var restBits := ToBinary(index / 2, depth - 1);
    FoldStep(poseidon, leaves[index], leaves[SiblingIndex(index)], rest, index % 2, restBits, parents[index / 2],
      FoldRounds(poseidon, parents[index / 2], rest, restBits));
  }

  lemma RootStep(poseidon: Poseidon2, leaves: seq<nat>, depth: nat, index: nat)
    requires Splits(poseidon, leaves, depth, index)
    ensures Root(poseidon, leaves, depth) == Root(poseidon, Parents(poseidon, leaves), depth - 1)
  {
  }

  lemma SiblingsStep(poseidon: Poseidon2, leaves: seq<nat>, depth: nat, index: nat)
    requires Splits(poseidon, leaves, depth, index)
    ensures Siblings(poseidon, leaves, depth, index)
         == [leaves[SiblingIndex(index)]] + Siblings(poseidon, Parents(poseidon, leaves), depth - 1, index / 2)
  {
  }

  lemma ToBinaryStep(v: nat, n: nat)
    requires n > 0
    ensures ToBinary(v, n) == [v % 2] + ToBinary(v / 2, n - 1)
  {
  }

  /** A fold whose first round reaches `parent`, from which the remaining
      rounds reach `root`, reaches `root`. */
  lemma FoldStep(poseidon: Poseidon2, sum: nat, sibling: nat, rest: seq<nat>, direction: nat, path: seq<nat>,
                 parent: nat, root: nat)
    requires |rest| <= |path|
    requires ProofRound(poseidon, direction, sibling, sum) == parent
    requires FoldRounds(poseidon, parent, rest, path) == root
    ensures FoldRounds(poseidon, sum, [sibling] + rest, [direction] + path) == root
  {
    assert ([sibling] + rest)[1..] == rest && ([direction] + path)[1..] == path;
  }

  /** One round over a leaf and its sibling gives their parent. */
  lemma RoundIsParent(poseidon: Poseidon2, level: seq<nat>, index: nat)
    requires |level| % 2 == 0 && index < |level|
    ensures SiblingIndex(index) < |level|
    ensures ProofRound(poseidon, index % 2, level[SiblingIndex(index)], level[index])
         == Parents(poseidon, level)[index / 2]
  {
    var k := index / 2;
    assert index == 2 * k || index == 2 * k + 1;
    ParentAt(poseidon, level, k);
  }

  /** The siblings of a leaf do not depend on the leaf itself. */
  lemma {:induction false} SiblingsIgnoreLeaf(poseidon: Poseidon2, a: seq<nat>, b: seq<nat>, depth: nat, index: nat)
    requires |a| == |b| == Pow2(depth) && index < |a|
    requires forall j :: 0 <= j < |a| && j != index ==> a[j] == b[j]
    ensures Siblings(poseidon, a, depth, index) == Siblings(poseidon, b, depth, index)
    decreases depth
  {
    if depth > 0 {
      Halve(poseidon, a, depth, index);
      assert Splits(poseidon, b, depth, index);
      var pa, pb := Parents(poseidon, a), Parents(poseidon, b);
      forall k | 0 <= k < |pa| && k != index / 2 ensures pa[k] == pb[k] {
        assert 2 * k != index && 2 * k + 1 != index;
        ParentAt(poseidon, a, k);
        ParentAt(poseidon, b, k);
      }
      SiblingsIgnoreLeaf(poseidon, pa, pb, depth - 1, index / 2);
    }
  }

  /** Writing `value` at leaf `index` gives the root that the path fold
      computes from `value` and the siblings of the tree before the write. */
  lemma UpdatedRoot(poseidon: Poseidon2, leaves: seq<nat>, depth: nat, index: nat, value: nat)
    requires |leaves| == Pow2(depth) && index < |leaves|
    ensures Root(poseidon, leaves[index := value], depth)
         == FoldRounds(poseidon, value, Siblings(poseidon, leaves, depth, index), ToBinary(index, depth))
  {
    var updated := leaves[index := value];
    SiblingsIgnoreLeaf(poseidon, updated, leaves, depth, index);
    PathFoldIsRoot(poseidon, updated, depth, index);
  }
}
