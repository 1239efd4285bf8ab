/**
 * The Merkle engine: leaf ingestion, tree construction, root retrieval, proof
 * derivation and proof validation over one MerkleTree record.
 */
module Engine {
  import opened Wrappers
  import opened Encoding
  import opened Hashing
  import opened Levels
  import opened Proofs
  import opened State

  /** The bytes stored for a leaf value: its UTF-8 encoding, hashed once when doHash. */
  function LeafData(h: Hasher, value: string, doHash: bool): (r: Bytes)
    ensures doHash && FixedWidth(h) ==> |r| == DigestLength
    ensures !doHash ==> |value| <= |r| <= 4 * |value|
  {
    if doHash then h(Utf8(value)) else Utf8(value)
  }

  /** The leaves a sequence of values adds, one addLeaf after another. */
  function LeavesData(h: Hasher, values: seq<string>, doHash: bool): (r: Level)
    ensures |r| == |values|
    ensures forall i :: 0 <= i < |values| ==> r[i] == LeafData(h, values[i], doHash)
  {
    if values == [] then []
    else LeavesData(h, values[..|values| - 1], doHash) + [LeafData(h, values[|values| - 1], doHash)]
  }

  class MerkleTools {
    /** The host's SHA-256. */
    const sha256: Hasher
    var tree: MerkleTree
    /** Whether the last construction hashed twice: the engine does not keep it, the proofs need it. */
    ghost var builtDoubleHashed: bool

    /**
     * The state invariant: without leaves there are no levels; stored levels
     * are well shaped and each is the next level (in the remembered hashing
     * mode) of the one below it, the bottom one a prefix of the leaves; a ready
     * tree has levels exactly when it has leaves, and then they are built over
     * all of them.
     */
    ghost predicate Valid()
      reads this, tree
    {
      (tree.leaves == [] ==> tree.levels == []) &&
      (tree.levels != [] ==>
         WellShaped(tree.levels) && Chained(sha256, builtDoubleHashed, tree.levels) &&
         Bottom(tree.levels) <= tree.leaves) &&
      (tree.isReady ==> (tree.levels == [] <==> tree.leaves == [])) &&
      (tree.isReady && tree.levels != [] ==> Bottom(tree.levels) == tree.leaves)
    }

    constructor (sha256: Hasher)
      ensures Valid() && fresh(tree) && this.sha256 == sha256
      ensures tree.leaves == [] && tree.levels == [] && !tree.isReady
    {
      this.sha256 := sha256;
      tree := new MerkleTree();
    }

    /** `resetTree`: a fresh, empty record replaces the old one. */
    method ResetTree()
      requires Valid()
      modifies this
      ensures Valid() && fresh(tree)
      ensures tree.leaves == [] && tree.levels == [] && !tree.isReady
      ensures GetLeafCount() == 0 && GetMerkleRoot() == None
    {
      tree := new MerkleTree();
    }

    /** `addLeaf`: appends one leaf at index old count and clears readiness. */
    method AddLeaf(value: string, doHash: bool)
      requires Valid()
      modifies tree
      ensures Valid()
      ensures tree.leaves == old(tree.leaves) + [LeafData(sha256, value, doHash)]
      ensures tree.levels == old(tree.levels) && !tree.isReady
    {
      tree.isReady := false;
      var leafData := Utf8(value);
      if doHash {
        leafData := sha256(leafData);
      }
      tree.leaves := tree.leaves + [leafData];
    }

    /** `addLeaves`: the same as calling addLeaf on each value in order. */
    method AddLeaves(valuesArray: seq<string>, doHash: bool)
      requires Valid()
      modifies tree
      ensures Valid()
      ensures tree.leaves == old(tree.leaves) + LeavesData(sha256, valuesArray, doHash)
      ensures |tree.leaves| == old(|tree.leaves|) + |valuesArray|
      ensures tree.levels == old(tree.levels)
      ensures tree.isReady == (old(tree.isReady) && valuesArray == [])
    {
      for i := 0 to |valuesArray|
        invariant Valid()
        invariant tree.leaves == old(tree.leaves) + LeavesData(sha256, valuesArray[..i], doHash)
        invariant tree.levels == old(tree.levels)
        invariant tree.isReady == (old(tree.isReady) && i == 0)
      {
        AddLeaf(valuesArray[i], doHash);
        assert valuesArray[..i + 1][..i] == valuesArray[..i];
      }
      assert valuesArray[..|valuesArray|] == valuesArray;
    }

    /** `getLeaf`: the leaf at `index`, or None outside [0, count); readiness plays no part. */
    function GetLeaf(index: int): (r: Option<Bytes>)
      reads this, tree
      ensures r == None <==> index < 0 || index >= |tree.leaves|
      ensures r.Some? ==> r.value == tree.leaves[index]
    {
      if index < 0 || index > |tree.leaves| - 1 then None else Some(tree.leaves[index])
    }

    /** `getLeafCount`: the indices that hold a leaf are exactly 0 .. count - 1. */
    function GetLeafCount(): (n: nat)
      reads this, tree
      ensures forall i :: 0 <= i < n <==> GetLeaf(i).Some?
    {
      |tree.leaves|
    }

    /** `getTreeReadyState`: a ready tree has a root exactly when it has leaves. */
    function GetTreeReadyState(): (ready: bool)
      reads this, tree
      requires Valid()
      ensures ready ==> (GetMerkleRoot().Some? <==> tree.leaves != [])
      ensures !ready ==> GetMerkleRoot() == None
    {
      tree.isReady
    }

    /**
     * `getMerkleRoot`: the single node of the top level, present exactly when the
     * tree is ready and has levels; it is the root of a construction over the
     * current leaves.
     */
    function GetMerkleRoot(): (r: Option<Bytes>)
      reads this, tree
      requires Valid()
      ensures r.Some? <==> tree.isReady && tree.levels != []
      ensures r.Some? ==> tree.levels[0] == [r.value]
      ensures r.Some? ==> r.value == Root(sha256, builtDoubleHashed, tree.leaves)
    {
      if !tree.isReady || |tree.levels| == 0 then None
      else
        ChainedTower(sha256, builtDoubleHashed, tree.levels);
        Some(tree.levels[0][0])
    }

    /** `calculateNextLevel`: the level above the current top level. */
    method CalculateNextLevel(doubleHash: bool) returns (nodes: Level)
      requires |tree.levels| > 0
      ensures nodes == NextLevel(sha256, doubleHash, tree.levels[0])
    {
      nodes := [];
      var topLevel := tree.levels[0];
      var topLevelCount := |topLevel|;
      var x := 0;
      while x < topLevelCount
        invariant 2 * |nodes| == x <= topLevelCount + 1
        invariant forall k :: 0 <= k < |nodes| ==> nodes[k] == Parent(sha256, doubleHash, topLevel, k)
      {
        var node: Bytes;
        if x + 1 <= topLevelCount - 1 {
          if doubleHash {
            node := sha256(sha256(topLevel[x] + topLevel[x + 1]));
          } else {
            node := sha256(topLevel[x] + topLevel[x + 1]);
          }
        } else {
          node := topLevel[x];
        }
        assert node == Parent(sha256, doubleHash, topLevel, |nodes|);
        nodes := nodes + [node];
        x := x + 2;
      }
      NextLevelFromParents(sha256, doubleHash, topLevel, nodes);
    }

    /**
     * `makeTree`: with leaves, the levels become the construction over them
     * (root level first); without, the levels are left as they are. Either way
     * the tree is ready afterwards.
     */
    method MakeTree(doubleHash: bool)
      requires Valid()
      modifies this, tree
      ensures Valid() && tree == old(tree)
      ensures tree.leaves == old(tree.leaves) && tree.isReady
      ensures tree.leaves != [] ==> tree.levels == Tower(sha256, doubleHash, tree.leaves) && builtDoubleHashed == doubleHash
      ensures tree.leaves == [] ==> tree.levels == old(tree.levels) == []
      ensures tree.leaves != [] ==> GetMerkleRoot() == Some(Root(sha256, doubleHash, tree.leaves))
    {
      tree.isReady := false;
      var leafCount := |tree.leaves|;
      if leafCount > 0 {
        builtDoubleHashed := doubleHash;
        ghost var tower := Tower(sha256, doubleHash, tree.leaves);
        ghost var below: seq<Level> := [];
        tree.levels := [];
        tree.levels := [tree.leaves] + tree.levels;
        while |tree.levels[0]| > 1
          invariant |tree.levels| > 0 && |tree.levels[0]| > 0
          invariant tree.levels == [tree.levels[0]] + below
          invariant Tower(sha256, doubleHash, tree.levels[0]) + below == tower
          invariant tree == old(tree) && tree.leaves == old(tree.leaves) && !tree.isReady
          invariant builtDoubleHashed == doubleHash
          decreases |tree.levels[0]|
        {
          var top := tree.levels[0];
          var next := CalculateNextLevel(doubleHash);
          TowerGrows(sha256, doubleHash, top, below, next, tower);
          below := [top] + below;
          tree.levels := [next] + tree.levels;
        }
        assert Tower(sha256, doubleHash, tree.levels[0]) == [tree.levels[0]];
        assert tree.levels == tower;
        TowerWellShaped(sha256, doubleHash, tree.leaves);
        TowerChained(sha256, doubleHash, tree.leaves);
      }
      tree.isReady := true;
    }

    /**
     * `getProof`: None when the tree is not ready or the index is outside the
     * leaf level; otherwise the proof path of that leaf, with the inout index
     * left at 0 (the root's position). Traps on a ready tree without levels.
     */
    method GetProof(index: int) returns (proof: Option<seq<ProofStep>>, indexAfter: int)
      requires Valid()
      requires tree.isReady ==> tree.levels != []
      ensures proof.Some? <==> tree.isReady && 0 <= index < |tree.leaves|
      ensures proof == None ==> indexAfter == index
      ensures proof.Some? ==> indexAfter == 0
      ensures proof.Some? ==> WellShaped(tree.levels) && proof.value == ProofPath(tree.levels, |tree.levels| - 1, index)
      ensures proof.Some? ==> |proof.value| <= |tree.levels| - 1
      ensures proof.Some? ==>
                ValidateIntended(sha256, builtDoubleHashed, proof.value, tree.leaves[index], tree.levels[0][0])
    {
      indexAfter := index;
      if !tree.isReady {
        return None, indexAfter;
      }
      var currentRowIndex := |tree.levels| - 1;
      if indexAfter < 0 || indexAfter > |tree.levels[currentRowIndex]| - 1 {
        return None, indexAfter;
      }
      var steps;
      steps, indexAfter := ClimbToRoot(indexAfter);
      proof := Some(steps);
      ProofPathClimbs(sha256, builtDoubleHashed, tree.levels, currentRowIndex, index);
    }

    /**
     * The loop of `getProof`: from the leaf level up to the level below the
     * root, a step for each node that has a sibling, the index halved each time.
     */
    method ClimbToRoot(index: int) returns (steps: seq<ProofStep>, indexAfter: int)
      requires WellShaped(tree.levels) && 0 <= index < |tree.levels[|tree.levels| - 1]|
      ensures steps == ProofPath(tree.levels, |tree.levels| - 1, index)
      ensures indexAfter == 0
    {
      ghost var levels := tree.levels;
      indexAfter := index;
      steps := [];
      var x := |tree.levels| - 1;
      while x > 0
        invariant 0 <= x < |levels|
        invariant 0 <= indexAfter < |levels[x]|
        invariant steps + ProofPath(levels, x, indexAfter) == ProofPath(levels, |levels| - 1, index)
      {
        ProofPathUnfold(levels, x, indexAfter);
        var currentLevelNodeCount := |tree.levels[x]|;
        if indexAfter == currentLevelNodeCount - 1 && currentLevelNodeCount % 2 == 1 {
          indexAfter := indexAfter / 2;
        } else {
          var isRightNode := indexAfter % 2 == 1;
          var siblingIndex := if isRightNode then indexAfter - 1 else indexAfter + 1;
          var siblingPosition := if isRightNode then Left else Right;
          var siblingValue := HexEncodedString(tree.levels[x][siblingIndex], false);
          var step := ProofStep(siblingPosition, siblingValue);
          assert step == SiblingStep(levels[x], indexAfter);
          assert (steps + [step]) + ProofPath(levels, x - 1, indexAfter / 2) == steps + ([step] + ProofPath(levels, x - 1, indexAfter / 2));
          steps := steps + [step];
          indexAfter := indexAfter / 2;
        }
        x := x - 1;
      }
      assert steps + [] == steps;
    }

    /**
     * `validateProof`, as written: an empty proof compares target and root;
     * otherwise each step folds the running hash with the UTF-8 bytes of the
     * step's own tag ("left" first, "right" second), an unknown tag rejects,
     * and the result is compared with the root as lower-case hex.
     */
    method ValidateProof(proof: seq<ProofStep>, targetHash: Bytes, merkleRoot: Bytes, doubleHash: bool) returns (valid: bool)
      ensures valid == ValidateAsWritten(sha256, doubleHash, proof, targetHash, merkleRoot)
      ensures proof == [] ==> (valid <==> targetHash == merkleRoot)
      ensures (exists j :: 0 <= j < |proof| && proof[j].position != Left && proof[j].position != Right) ==> !valid
    {
      if |proof| == 0 {
        HexInjective(targetHash, merkleRoot, false);
        return HexEncodedString(targetHash, false) == HexEncodedString(merkleRoot, false);
      }
      var proofHash := targetHash;
      for x := 0 to |proof|
        invariant FoldAsWritten(sha256, doubleHash, proof[x..], proofHash) == FoldAsWritten(sha256, doubleHash, proof, targetHash)
      {
        assert proof[x..][0] == proof[x] && proof[x..][1..] == proof[x + 1..];
        if proof[x].position == Left {
          if doubleHash {
            proofHash := sha256(sha256(Utf8(proof[x].position) + proofHash));
          } else {
            proofHash := sha256(Utf8(proof[x].position) + proofHash);
          }
        } else if proof[x].position == Right {
          if doubleHash {
            proofHash := sha256(sha256(proofHash + Utf8(proof[x].position)));
          } else {
            proofHash := sha256(proofHash + Utf8(proof[x].position));
          }
        } else {
          return false;
        }
      }
      assert proof[|proof|..] == [];
      valid := HexEncodedString(proofHash, false) == HexEncodedString(merkleRoot, false);
    }
  }
}
