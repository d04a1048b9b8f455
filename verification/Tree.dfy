/** crates/tree: the append-only commitment tree with its level-by-level loops and anchor window,
    proved against the recursive padded tree of module Merkle. */
module Tree {
  import opened Arithmetic
  import opened Bytes
  import opened Hashing
  import opened Interfaces
  import opened Merkle

  method EmptyRoots() returns (roots: seq<Digest>)
    ensures |roots| == TREE_DEPTH + 1
    ensures forall d :: 0 <= d <= TREE_DEPTH ==> roots[d] == EmptyRoot(d)
  {
    hide NodeHash, HashParts;
    var a := new Digest[TREE_DEPTH + 1];
    a[0] := HashParts(MerkleEmpty, []);
    var level := 1;
    while level <= TREE_DEPTH
      invariant 1 <= level <= TREE_DEPTH + 1
      invariant forall d :: 0 <= d < level ==> a[d] == EmptyRoot(d)
    {
      a[level] := NodeHash(a[level - 1], a[level - 1]);
      level := level + 1;
    }
    roots := a[..];
  }

  // ---------- one level of the tree ----------

  /** `level` holds the nodes of a level from the left; every node beyond it is an empty root. */
  ghost predicate IsLevel(leaves: seq<Digest>, depth: nat, level: seq<Digest>) {
    && level != []
    && (forall i :: 0 <= i < |level| ==> level[i] == NodeAt(leaves, depth, i))
    && (forall i :: i >= |level| ==> NodeAt(leaves, depth, i) == EmptyRoot(depth))
  }

  lemma LeavesAreLevel0(leaves: seq<Digest>)
    requires leaves != []
    ensures IsLevel(leaves, 0, leaves)
  {
  }

  function NodeOr(level: seq<Digest>, i: nat, empty: Digest): Digest {
    if i < |level| then level[i] else empty
  }

  lemma LevelNode(leaves: seq<Digest>, depth: nat, level: seq<Digest>, i: nat)
    requires IsLevel(leaves, depth, level)
    ensures NodeOr(level, i, EmptyRoot(depth)) == NodeAt(leaves, depth, i)
  {
  }

  lemma NextIsLevel(leaves: seq<Digest>, depth: nat, level: seq<Digest>, next: seq<Digest>)
    requires IsLevel(leaves, depth, level)
    requires |next| == (|level| + 1) / 2
    requires forall i :: 0 <= i < |next| ==>
               next[i] == NodeHash(level[2 * i], NodeOr(level, 2 * i + 1, EmptyRoot(depth)))
    ensures IsLevel(leaves, depth + 1, next)
  {
    hide NodeHash;
    forall i | 0 <= i < |next|
      ensures next[i] == NodeAt(leaves, depth + 1, i)
    {
      LevelNode(leaves, depth, level, 2 * i);
      LevelNode(leaves, depth, level, 2 * i + 1);
    }
    forall i {:trigger NodeAt(leaves, depth + 1, i)} | i >= |next|
      ensures NodeAt(leaves, depth + 1, i) == EmptyRoot(depth + 1)
    {
      LevelNode(leaves, depth, level, 2 * i);
      LevelNode(leaves, depth, level, 2 * i + 1);
    }
  }

  /** The inner loop of `root` and `witness`: hash neighbours, an odd last node with the empty root. */
  method ParentLevel(ghost leaves: seq<Digest>, ghost depth: nat, level: seq<Digest>, empty: Digest)
    returns (next: seq<Digest>)
    requires IsLevel(leaves, depth, level) && empty == EmptyRoot(depth)
    ensures IsLevel(leaves, depth + 1, next)
  {
    hide NodeHash, NodeAt, EmptyRoot;
    next := [];
    var i := 0;
    while i < |level|
      invariant i == 2 * |next| && i <= |level| + 1
      invariant forall j :: 0 <= j < |next| ==> next[j] == NodeHash(level[2 * j], NodeOr(level, 2 * j + 1, empty))
    {
      var left := level[i];
      var right := if i + 1 < |level| then level[i + 1] else empty;
      next := next + [NodeHash(left, right)];
      i := i + 2;
    }
    NextIsLevel(leaves, depth, level, next);
  }

  // ---------- the sliding anchor window ----------

  function SaturatingSub(a: nat, b: nat): nat { if a >= b then a - b else 0 }

  /** Anchors left after the eviction loop of `seal`. */
  function Evict(anchors: seq<Anchor>, height: u64): seq<Anchor> {
    if anchors != [] && SaturatingSub(height, anchors[0].height) >= ANCHOR_WINDOW then Evict(anchors[1..], height)
    else anchors
  }

  /** What eviction leaves, for anchors of any heights, later ones than `height` included: everything from the
      first anchor less than 1024 heights old. */
  lemma {:induction false} EvictExactly(anchors: seq<Anchor>, height: u64) returns (k: nat)
    ensures k <= |anchors| && Evict(anchors, height) == anchors[k..]
    ensures forall i :: 0 <= i < k ==> anchors[i].height + 1024 <= height
    ensures k < |anchors| ==> height < anchors[k].height + 1024
  {
    if anchors != [] && SaturatingSub(height, anchors[0].height) >= ANCHOR_WINDOW {
      var j := EvictExactly(anchors[1..], height);
      k := j + 1;
    } else {
      k := 0;
    }
  }

  class CommitmentTree {
    var leaves: seq<Digest>
    const empty: seq<Digest>
    var anchors: seq<Anchor>

    ghost predicate Valid()
      reads this
    {
      |empty| == TREE_DEPTH + 1 && forall d :: 0 <= d <= TREE_DEPTH ==> empty[d] == EmptyRoot(d)
    }

    constructor ()
      ensures Valid() && leaves == [] && anchors == []
    {
      var roots := EmptyRoots();
      empty := roots;
      leaves, anchors := [], [];
    }

    constructor FromRawLeaves(raw: seq<Digest>)
      ensures Valid() && leaves == raw && anchors == []
    {
      var roots := EmptyRoots();
      empty := roots;
      leaves, anchors := raw, [];
    }

    method Append(cm: Commitment) returns (position: nat)
      requires Valid()
      modifies this`leaves
      ensures Valid() && leaves == old(leaves) + [cm]
      ensures position == |old(leaves)| && leaves[position] == cm
    {
      position := |leaves|;
      leaves := leaves + [cm];
    }

    /** The loop computes the root of the full padded tree, for every number of leaves. */
    method Root() returns (root: Digest)
      requires Valid()
      ensures root == RootOf(leaves)
    {
      hide NodeHash, NodeAt, EmptyRoot;
      if leaves == [] {
        assert empty[TREE_DEPTH] == RootOf([]) by { EmptyTree(TREE_DEPTH, 0); }
        return empty[TREE_DEPTH];
      }
      var level := leaves;
      LeavesAreLevel0(leaves);
      for depth := 0 to TREE_DEPTH
        invariant IsLevel(leaves, depth, level)
      {
        level := ParentLevel(leaves, depth, level, empty[depth]);
      }
      root := level[0];
    }

    /** `None` outside the tree; otherwise the siblings of the padded tree at every level. */
    method Witness(position: u64) returns (path: Option<MerklePath>)
      requires Valid()
      ensures path.None? <==> position >= |leaves|
      ensures path.Some? ==> path.value.position == position && IsWitness(leaves, position, path.value.siblings)
    {
      hide NodeHash, NodeAt, EmptyRoot, IsLevel, NodeOr, Sibling, Shr;
      if position >= |leaves| {
        return None;
      }
      var siblings := new Digest[TREE_DEPTH];
      var lower := leaves;
      var level := lower;
      var idx := position;
      LeavesAreLevel0(lower);
      ShrUnfolds(position, 0);
      for depth := 0 to TREE_DEPTH
        invariant IsLevel(lower, depth, level)
        invariant idx == Shr(position, depth)
        invariant forall d :: 0 <= d < depth ==> siblings[d] == NodeAt(lower, d, Sibling(Shr(position, d)))
      {
        var sib := Sibling(idx);
        siblings[depth] := NodeOr(level, sib, empty[depth]);
        LevelNode(lower, depth, level, sib);
        level := ParentLevel(lower, depth, level, empty[depth]);
        idx := idx / 2;
        ShrUnfolds(position, depth);
      }
      var found := siblings[..];
      assert IsWitness(lower, position, found);
      path := Some(MerklePath(position, found));
    }

    method Seal(height: u64) returns (anchor: Anchor)
      requires Valid()
      modifies this`anchors
      ensures Valid() && anchor == Anchor(height, RootOf(leaves))
      ensures anchors == Evict(old(anchors) + [anchor], height)
    {
      var root := Root();
      anchor := Anchor(height, root);
      anchors := anchors + [anchor];
      while anchors != [] && SaturatingSub(height, anchors[0].height) >= ANCHOR_WINDOW
        invariant Evict(anchors, height) == Evict(old(anchors) + [anchor], height)
        decreases |anchors|
      {
        anchors := anchors[1..];
      }
    }

    predicate AnchorValid(anchor: Anchor)
      reads this
    {
      exists i :: 0 <= i < |anchors| && anchors[i] == anchor
    }
  }

  lemma {:induction false} EmptyTree(level: nat, i: nat)
    ensures NodeAt([], level, i) == EmptyRoot(level)
  {
    hide NodeHash;
    if level == 0 {
    } else {
      EmptyTree(level - 1, 2 * i);
      EmptyTree(level - 1, 2 * i + 1);
    }
  }

  /** The loop of `verify_path` accepts exactly the paths that climb to the root. */
  method VerifyPath(leaf: Commitment, path: MerklePath, root: Digest) returns (ok: bool)
    ensures ok <==> PathVerifies(leaf, path, root)
  {
    hide NodeHash;
    var cur := leaf;
    var idx := path.position;
    for i := 0 to |path.siblings|
      invariant cur == Climb(leaf, path.siblings[..i], path.position)
      invariant idx == Shr(path.position, i)
    {
      assert path.siblings[..i + 1][..i] == path.siblings[..i];
      var sib := path.siblings[i];
      cur := if idx % 2 == 0 then NodeHash(cur, sib) else NodeHash(sib, cur);
      idx := idx / 2;
    }
    assert path.siblings[..|path.siblings|] == path.siblings;
    ok := cur == root;
  }

  /** End to end: the witness of any appended leaf, below capacity, passes `verify_path` at the root. */
  method WitnessThenVerify(tree: CommitmentTree, position: u64) returns (ok: bool)
    requires tree.Valid() && position < |tree.leaves| && position < Pow2(TREE_DEPTH)
    ensures ok
  {
    var path := tree.Witness(position);
    var root := tree.Root();
    WitnessVerifies(tree.leaves, path.value);
    ok := VerifyPath(tree.leaves[position], path.value, root);
  }
}
