/**
 * Uses of the engine from the outside, as its unit test and its callers drive
 * it: a fresh engine, leaves added, a tree built, a root and a proof read back.
 */
module Scenarios {
  import opened Wrappers
  import opened Encoding
  import opened Hashing
  import opened Levels
  import opened Proofs
  import opened Engine

  /** The unit test `testAddLeaf`: a hashed leaf reads back as the digest of the value's UTF-8 bytes. */
  method AddLeafThenGetLeaf(sha256: Hasher, leafValue: string) returns (leaf: Option<Bytes>)
    ensures leaf == Some(sha256(Utf8(leafValue)))
  {
    var merkleTools := new MerkleTools(sha256);
    merkleTools.AddLeaf(leafValue, true);
    leaf := merkleTools.GetLeaf(0);
  }

  /**
   * Building over a non-empty list of values: the engine reports ready, holds
   * one leaf per value, and its root is the root of the construction over them.
   */
  method BuildThenGetRoot(sha256: Hasher, values: seq<string>, doHash: bool, doubleHash: bool)
    returns (root: Option<Bytes>, count: nat, ready: bool)
    requires values != []
    ensures ready && count == |values|
    ensures root == Some(Root(sha256, doubleHash, LeavesData(sha256, values, doHash)))
  {
    var merkleTools := new MerkleTools(sha256);
    merkleTools.AddLeaves(values, doHash);
    assert merkleTools.tree.leaves == LeavesData(sha256, values, doHash);
    merkleTools.MakeTree(doubleHash);
    root := merkleTools.GetMerkleRoot();
    count := merkleTools.GetLeafCount();
    ready := merkleTools.GetTreeReadyState();
  }

  /**
   * Asking for the proof of every index of a freshly built tree: present exactly
   * for the indices of the leaves, and accepted by the corrected validator
   * against the tree's root.
   */
  method BuildThenProve(sha256: Hasher, values: seq<string>, doHash: bool, doubleHash: bool, index: int)
    returns (proof: Option<seq<ProofStep>>, root: Option<Bytes>)
    requires values != []
    ensures proof.Some? <==> 0 <= index < |values|
    ensures root.Some?
    ensures proof.Some? ==>
              ValidateIntended(sha256, doubleHash, proof.value, LeavesData(sha256, values, doHash)[index], root.value)
  {
    var merkleTools := new MerkleTools(sha256);
    merkleTools.AddLeaves(values, doHash);
    assert merkleTools.tree.leaves == LeavesData(sha256, values, doHash);
    merkleTools.MakeTree(doubleHash);
    root := merkleTools.GetMerkleRoot();
    var i := index;
    proof, i := merkleTools.GetProof(i);
  }
}
