/** The full depth-32 padded Merkle tree, as a recursive definition, and what authentication paths
    say about it. This is the reference the level-by-level loops of crates/tree are proved against. */
module Merkle {
  import opened Arithmetic
  import opened Bytes
  import opened Hashing
  import opened Interfaces

  function NodeHash(left: Digest, right: Digest): Digest { HashParts(MerkleNode, [left, right]) }

  function EmptyRoot(level: nat): Digest {
    if level == 0 then HashParts(MerkleEmpty, []) else NodeHash(EmptyRoot(level - 1), EmptyRoot(level - 1))
  }

  function PaddedLeaf(leaves: seq<Digest>, i: nat): Digest {
    if i < |leaves| then leaves[i] else EmptyRoot(0)
  }

  /** Node `i` of level `level` over the leaves followed by endless empty leaves. */
  function NodeAt(leaves: seq<Digest>, level: nat, i: nat): Digest {
    if level == 0 then PaddedLeaf(leaves, i)
    else NodeHash(NodeAt(leaves, level - 1, 2 * i), NodeAt(leaves, level - 1, 2 * i + 1))
  }

  function RootOf(leaves: seq<Digest>): Digest { NodeAt(leaves, TREE_DEPTH, 0) }

  // ---------- authentication paths ----------

  /** The hash reached from `leaf` after folding in all siblings, bit k of `index` choosing the side. */
  function Climb(leaf: Digest, siblings: seq<Digest>, index: nat): Digest {
    if siblings == [] then leaf
    else
      var k := |siblings| - 1;
      var below := Climb(leaf, siblings[..k], index);
      if Bit(index, k) == 0 then NodeHash(below, siblings[k]) else NodeHash(siblings[k], below)
  }

  predicate PathVerifies(leaf: Digest, path: MerklePath, root: Digest) {
    Climb(leaf, path.siblings, path.position) == root
  }

  /** `i ^ 1`. */
  function Sibling(i: nat): nat { if i % 2 == 0 then i + 1 else i - 1 }

  /** The path the tree hands out for `position`: at each level the sibling of the node above it. */
  ghost predicate IsWitness(leaves: seq<Digest>, position: nat, siblings: seq<Digest>) {
    forall level :: 0 <= level < |siblings| ==> siblings[level] == NodeAt(leaves, level, Sibling(Shr(position, level)))
  }

  lemma LeafLevel(leaves: seq<Digest>, i: nat)
    ensures NodeAt(leaves, 0, i) == PaddedLeaf(leaves, i)
  {
  }

  /** A node and its sibling, in the order their parity gives, hash to their parent. */
  lemma ParentOf(leaves: seq<Digest>, level: nat, i: nat)
    ensures NodeAt(leaves, level + 1, i / 2)
         == if i % 2 == 0 then NodeHash(NodeAt(leaves, level, i), NodeAt(leaves, level, Sibling(i)))
            else NodeHash(NodeAt(leaves, level, Sibling(i)), NodeAt(leaves, level, i))
  {
  }

  /** Completeness, level by level: every witness climbs through the nodes above its leaf. */
  lemma {:induction false} WitnessClimbs(leaves: seq<Digest>, position: nat, siblings: seq<Digest>)
    requires IsWitness(leaves, position, siblings)
    ensures Climb(PaddedLeaf(leaves, position), siblings, position)
         == NodeAt(leaves, |siblings|, Shr(position, |siblings|))
  {
    hide NodeHash, NodeAt, Sibling;
    if siblings == [] {
      LeafLevel(leaves, position);
    } else {
      var k := |siblings| - 1;
      assert IsWitness(leaves, position, siblings[..k]);
      WitnessClimbs(leaves, position, siblings[..k]);
      ParentOf(leaves, k, Shr(position, k));
    }
  }

  /** Every position below 2^32 has a path that verifies against the root. */
  lemma WitnessVerifies(leaves: seq<Digest>, path: MerklePath)
    requires path.position < Pow2(TREE_DEPTH)
    requires IsWitness(leaves, path.position, path.siblings)
    ensures PathVerifies(PaddedLeaf(leaves, path.position), path, RootOf(leaves))
  {
    WitnessClimbs(leaves, path.position, path.siblings);
    SmallIndex(TREE_DEPTH, path.position);
  }

  // ---------- binding ----------

  type Pair = (Digest, Digest)

  /** Two different child pairs with one parent hash. */
  ghost predicate Colliding(a: Pair, b: Pair) {
    a != b && NodeHash(a.0, a.1) == NodeHash(b.0, b.1)
  }

  /** The child pairs hashed while climbing a path. */
  ghost function PathPairs(leaf: Digest, siblings: seq<Digest>, index: nat): set<Pair> {
    if siblings == [] then {}
    else
      var k := |siblings| - 1;
      var below := Climb(leaf, siblings[..k], index);
      PathPairs(leaf, siblings[..k], index)
      + {if Bit(index, k) == 0 then (below, siblings[k]) else (siblings[k], below)}
  }

  /** The child pairs of the subtree under one node. */
  ghost function TreePairs(leaves: seq<Digest>, level: nat, i: nat): set<Pair> {
    if level == 0 then {}
    else {(NodeAt(leaves, level - 1, 2 * i), NodeAt(leaves, level - 1, 2 * i + 1))}
         + TreePairs(leaves, level - 1, 2 * i) + TreePairs(leaves, level - 1, 2 * i + 1)
  }

  ghost predicate CollisionBetween(s: set<Pair>, t: set<Pair>) {
    exists a, b :: a in s && b in t && Colliding(a, b)
  }

  lemma CollisionIn(a: Pair, b: Pair, s: set<Pair>, t: set<Pair>)
    requires a in s && b in t && NodeHash(a.0, a.1) == NodeHash(b.0, b.1)
    ensures a == b || CollisionBetween(s, t)
  {
  }

  lemma CollisionGrows(s: set<Pair>, t: set<Pair>, s': set<Pair>, t': set<Pair>)
    requires s <= s' && t <= t'
    ensures CollisionBetween(s, t) ==> CollisionBetween(s', t')
  {
  }

  /** Whatever path reaches node `i` of a level, its leaf is the padded leaf below that node that the
      bits of the index select; otherwise path and tree together contain a hash collision. */
  lemma {:induction false} ClimbBinds(leaves: seq<Digest>, leaf: Digest, siblings: seq<Digest>, index: nat, i: nat)
    requires Climb(leaf, siblings, index) == NodeAt(leaves, |siblings|, i)
    ensures leaf == PaddedLeaf(leaves, Descend(i, |siblings|, index))
         || CollisionBetween(PathPairs(leaf, siblings, index), TreePairs(leaves, |siblings|, i))
  {
    hide NodeHash;
    if siblings == [] {
    } else {
      var k := |siblings| - 1;
      var below := Climb(leaf, siblings[..k], index);
      var a := if Bit(index, k) == 0 then (below, siblings[k]) else (siblings[k], below);
      var b := (NodeAt(leaves, k, 2 * i), NodeAt(leaves, k, 2 * i + 1));
      var s, t := PathPairs(leaf, siblings, index), TreePairs(leaves, |siblings|, i);
      CollisionIn(a, b, s, t);
      if a == b {
        var j := 2 * i + Bit(index, k);
        ClimbBinds(leaves, leaf, siblings[..k], index, j);
        CollisionGrows(PathPairs(leaf, siblings[..k], index), TreePairs(leaves, k, j), s, t);
      }
    }
  }

  /** Binding of `verify_path`: any accepted path whatever proves the padded leaf at its position
      modulo 2^32, or exhibits two different inputs with one node hash. */
  lemma PathBinds(leaves: seq<Digest>, leaf: Digest, path: MerklePath)
    requires PathVerifies(leaf, path, RootOf(leaves))
    ensures leaf == PaddedLeaf(leaves, path.position % Pow2(TREE_DEPTH))
         || CollisionBetween(PathPairs(leaf, path.siblings, path.position), TreePairs(leaves, TREE_DEPTH, 0))
  {
    ClimbBinds(leaves, leaf, path.siblings, path.position, 0);
    DescendIsMod(TREE_DEPTH, path.position);
  }

  /** Two trees that agree at a node agree on every leaf below it, or together contain a collision. */
  lemma {:induction false} NodeBinds(a: seq<Digest>, b: seq<Digest>, level: nat, i: nat, index: nat)
    requires NodeAt(a, level, i) == NodeAt(b, level, i)
    ensures PaddedLeaf(a, Descend(i, level, index)) == PaddedLeaf(b, Descend(i, level, index))
         || CollisionBetween(TreePairs(a, level, i), TreePairs(b, level, i))
  {
    hide NodeHash;
    if level == 0 {
    } else {
      var k := level - 1;
      var p := (NodeAt(a, k, 2 * i), NodeAt(a, k, 2 * i + 1));
      var q := (NodeAt(b, k, 2 * i), NodeAt(b, k, 2 * i + 1));
      var s, t := TreePairs(a, level, i), TreePairs(b, level, i);
      CollisionIn(p, q, s, t);
      if p == q {
        var j := 2 * i + Bit(index, k);
        NodeBinds(a, b, k, j, index);
        CollisionGrows(TreePairs(a, k, j), TreePairs(b, k, j), s, t);
      }
    }
  }

  /** An anchor root commits to the whole leaf list: up to 2^32 leaves, none of them the empty digest,
      equal roots mean equal lists, or the two trees contain a collision. */
  lemma RootBinds(a: seq<Digest>, b: seq<Digest>)
    requires |a| <= |b| <= Pow2(TREE_DEPTH)
    requires EmptyRoot(0) !in b
    requires RootOf(a) == RootOf(b)
    ensures a == b || CollisionBetween(TreePairs(a, TREE_DEPTH, 0), TreePairs(b, TREE_DEPTH, 0))
  {
    hide NodeHash, NodeAt, TreePairs, Descend, Shr, Pow2, EmptyRoot;
    if !CollisionBetween(TreePairs(a, TREE_DEPTH, 0), TreePairs(b, TREE_DEPTH, 0)) {
      forall i | 0 <= i < |b|
        ensures PaddedLeaf(a, i) == b[i]
      {
        NodeBinds(a, b, TREE_DEPTH, 0, i);
        SmallIndex(TREE_DEPTH, i);
      }
      SamePaddedLeaves(a, b);
    }
  }

  lemma NoPaddingInside(a: seq<Digest>, b: seq<Digest>, i: nat)
    requires i < |b| && EmptyRoot(0) !in b && PaddedLeaf(a, i) == b[i]
    ensures i < |a| && a[i] == b[i]
  {
  }

  lemma SamePaddedLeaves(a: seq<Digest>, b: seq<Digest>)
    requires |a| <= |b| && EmptyRoot(0) !in b
    requires forall i :: 0 <= i < |b| ==> PaddedLeaf(a, i) == b[i]
    ensures a == b
  {
    hide EmptyRoot, PaddedLeaf;
    if |b| > 0 {
      NoPaddingInside(a, b, |b| - 1);
    }
    forall i | 0 <= i < |b|
      ensures i < |a| && a[i] == b[i]
    {
      NoPaddingInside(a, b, i);
    }
  }

  // ---------- relative to a log of hashed inputs ----------

  ghost function NodePreimage(p: Pair): Preimage { PartsPreimage(MerkleNode, [p.0, p.1]) }

  ghost predicate LogsPairs(log: set<Preimage>, pairs: set<Pair>) {
    forall p :: p in pairs ==> NodePreimage(p) in log
  }

  /** All the tree hashes: its nodes and the empty leaf. */
  ghost predicate LogsTree(log: set<Preimage>, leaves: seq<Digest>) {
    LogsPairs(log, TreePairs(leaves, TREE_DEPTH, 0)) && PartsPreimage(MerkleEmpty, []) in log
  }

  lemma NoNodeCollision(log: set<Preimage>, s: set<Pair>, t: set<Pair>)
    requires CollisionFree(log) && LogsPairs(log, s) && LogsPairs(log, t)
    ensures !CollisionBetween(s, t)
  {
    forall a, b | a in s && b in t && NodeHash(a.0, a.1) == NodeHash(b.0, b.1)
      ensures a == b
    {
      assert NodePreimage(a) in log && NodePreimage(b) in log;
      HashPartsInjective(log, MerkleNode, [a.0, a.1], MerkleNode, [b.0, b.1]);
      assert [a.0, a.1][0] == [b.0, b.1][0] && [a.0, a.1][1] == [b.0, b.1][1];
    }
  }
}
