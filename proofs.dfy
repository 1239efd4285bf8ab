/**
 * Inclusion proofs: the steps `getProof` emits for a leaf, the fold
 * `validateProof` performs over them as the code is written, and the corrected
 * fold (hashing the decoded sibling), with what each guarantees.
 */
module Proofs {
  import opened Wrappers
  import opened Encoding
  import opened Hashing
  import opened Levels

  /** One `(String, String)` element of a proof: the sibling's side and its hex digest. */
  datatype ProofStep = ProofStep(position: string, sibling: string)

  const Left: string := "left"
  const Right: string := "right"

  /**
   * The node at `index` is the unpaired last node of an odd-length level: it is
   * promoted. It sits at an even index and becomes the last node of the level above.
   */
  function Promoted(level: Level, index: int): (p: bool)
    ensures p ==> index % 2 == 0 && index / 2 == (|level| + 1) / 2 - 1
  {
    index == |level| - 1 && |level| % 2 == 1
  }

  /**
   * The step for a node that has a sibling: an odd index has its sibling on the
   * left at index - 1, an even one on the right at index + 1.
   */
  function SiblingStep(level: Level, index: nat): (s: ProofStep)
    requires index < |level| && !Promoted(level, index)
    ensures index % 2 == 1 ==> s == ProofStep(Left, HexEncodedString(level[index - 1], false))
    ensures index % 2 == 0 ==>
              index + 1 < |level| && s == ProofStep(Right, HexEncodedString(level[index + 1], false))
  {
    var isRightNode := index % 2 == 1;
    var siblingIndex := if isRightNode then index - 1 else index + 1;
    ProofStep(if isRightNode then Left else Right, HexEncodedString(level[siblingIndex], false))
  }

  /**
   * The proof for node `index` of level `x`, walking up to (not including) the
   * root level: one step per level, skipped where the node is promoted. It has
   * at most one step per level below the root, each tagged "left" or "right".
   */
  function ProofPath(levels: seq<Level>, x: nat, index: nat): (r: seq<ProofStep>)
    requires WellShaped(levels) && x < |levels| && index < |levels[x]|
    ensures |r| <= x
    ensures forall s :: s in r ==> s.position == Left || s.position == Right
    decreases x
  {
    if x == 0 then []
    else if Promoted(levels[x], index) then ProofPath(levels, x - 1, index / 2)
    else [SiblingStep(levels[x], index)] + ProofPath(levels, x - 1, index / 2)
  }

  /** One step of the walk towards the root: the step contributed by level x, then the rest of the path. */
  lemma ProofPathUnfold(levels: seq<Level>, x: nat, index: nat)
    requires WellShaped(levels) && 0 < x < |levels| && index < |levels[x]|
    ensures index / 2 < |levels[x - 1]|
    ensures Promoted(levels[x], index) ==> ProofPath(levels, x, index) == ProofPath(levels, x - 1, index / 2)
    ensures !Promoted(levels[x], index) ==>
              ProofPath(levels, x, index) == [SiblingStep(levels[x], index)] + ProofPath(levels, x - 1, index / 2)
  {
  }

  /** When none of levels 1..x has odd length (at the leaf level: a power-of-two leaf count), every level contributes a step. */
  lemma {:induction false} ProofPathFull(levels: seq<Level>, x: nat, index: nat)
    requires WellShaped(levels) && x < |levels| && index < |levels[x]|
    requires forall i :: 0 < i <= x ==> |levels[i]| % 2 == 0
    ensures |ProofPath(levels, x, index)| == x
    decreases x
  {
    if x > 0 {
      ProofPathFull(levels, x - 1, index / 2);
    }
  }

  /** A one-leaf tree proves its leaf with the empty proof. */
  lemma SingleLevelProof(levels: seq<Level>, index: nat)
    requires WellShaped(levels) && |levels| == 1 && index < |levels[0]|
    ensures index == 0 && ProofPath(levels, 0, index) == []
  {
  }

  /* ---------------- validateProof, as written ---------------- */

  /**
   * The fold of `validateProof` as the code is written: the running hash is
   * combined with the UTF-8 bytes of the side tag itself, never with the sibling;
   * an unrecognised tag stops the fold with None (the `return false`). It
   * finishes exactly when every tag is "left" or "right", and a finished fold
   * over at least one step is a digest.
   */
  function FoldAsWritten(h: Hasher, doubleHash: bool, proof: seq<ProofStep>, acc: Bytes): (r: Option<Bytes>)
    ensures r.Some? <==> forall i :: 0 <= i < |proof| ==> proof[i].position == Left || proof[i].position == Right
    ensures FixedWidth(h) && proof != [] && r.Some? ==> |r.value| == DigestLength
  {
    if proof == [] then Some(acc)
    else
      var tag := proof[0].position;
      assert forall i :: 1 <= i < |proof| ==> proof[i] == proof[1..][i - 1];
      if tag == Left then FoldAsWritten(h, doubleHash, proof[1..], Digest(h, doubleHash, Utf8(tag) + acc))
      else if tag == Right then FoldAsWritten(h, doubleHash, proof[1..], Digest(h, doubleHash, acc + Utf8(tag)))
      else None
  }

  /**
   * `validateProof` as written: hex comparison of target and root for an empty
   * proof, else of the fold and the root. An accepted proof carries only known
   * tags, and an accepted non-empty proof can only match a root of digest width.
   */
  function ValidateAsWritten(h: Hasher, doubleHash: bool, proof: seq<ProofStep>, target: Bytes, root: Bytes): (v: bool)
    ensures v ==> forall i :: 0 <= i < |proof| ==> proof[i].position == Left || proof[i].position == Right
    ensures v && proof != [] && FixedWidth(h) ==> |root| == DigestLength
  {
    if |proof| == 0 then HexEncodedString(target, false) == HexEncodedString(root, false)
    else
      match FoldAsWritten(h, doubleHash, proof, target)
      case None => false
      case Some(r) => HexEncodedString(r, false) == HexEncodedString(root, false)
  }

  /** The empty proof is accepted exactly when the target is the root, byte for byte. */
  lemma EmptyProofAsWritten(h: Hasher, doubleHash: bool, target: Bytes, root: Bytes)
    ensures ValidateAsWritten(h, doubleHash, [], target, root) <==> target == root
  {
    HexInjective(target, root, false);
  }

  /** A proof holding a step tagged neither "left" nor "right" is rejected, whatever else it holds. */
  lemma {:induction false} UnknownTagRejected(h: Hasher, doubleHash: bool, proof: seq<ProofStep>, target: Bytes, root: Bytes, j: nat)
    requires j < |proof| && proof[j].position != Left && proof[j].position != Right
    ensures !ValidateAsWritten(h, doubleHash, proof, target, root)
  {
  }

  /** Two proofs with the same tags validate alike: the sibling strings are never read. */
  lemma {:induction false} SiblingsIgnoredAsWritten(h: Hasher, doubleHash: bool, p: seq<ProofStep>, q: seq<ProofStep>, target: Bytes, root: Bytes)
    requires |p| == |q|
    requires forall i :: 0 <= i < |p| ==> p[i].position == q[i].position
    ensures ValidateAsWritten(h, doubleHash, p, target, root) == ValidateAsWritten(h, doubleHash, q, target, root)
  {
    FoldSiblingsIgnored(h, doubleHash, p, q, target);
  }

  lemma {:induction false} FoldSiblingsIgnored(h: Hasher, doubleHash: bool, p: seq<ProofStep>, q: seq<ProofStep>, acc: Bytes)
    requires |p| == |q|
    requires forall i :: 0 <= i < |p| ==> p[i].position == q[i].position
    ensures FoldAsWritten(h, doubleHash, p, acc) == FoldAsWritten(h, doubleHash, q, acc)
  {
    if p != [] {
      var tag := p[0].position;
      assert q[0].position == tag;
      var next := if tag == Left then Digest(h, doubleHash, Utf8(tag) + acc) else Digest(h, doubleHash, acc + Utf8(tag));
      FoldSiblingsIgnored(h, doubleHash, p[1..], q[1..], next);
    }
  }

  /* ---------------- validateProof, corrected ---------------- */

  /**
   * The corrected fold: the hex sibling is decoded and hashed with the
   * running digest, sibling first for "left", second for "right"; an unknown tag
   * or a sibling that is not hex text stops the fold with None.
   */
  function FoldIntended(h: Hasher, doubleHash: bool, proof: seq<ProofStep>, acc: Bytes): Option<Bytes>
  {
    if proof == [] then Some(acc)
    else
      var tag := proof[0].position;
      match HexDecode(proof[0].sibling)
      case None => None
      case Some(sibling) =>
        if tag == Left then FoldIntended(h, doubleHash, proof[1..], Digest(h, doubleHash, sibling + acc))
        else if tag == Right then FoldIntended(h, doubleHash, proof[1..], Digest(h, doubleHash, acc + sibling))
        else None
  }

  /** The corrected `validateProof`: the fold of the proof from the target must end at the root. */
  function ValidateIntended(h: Hasher, doubleHash: bool, proof: seq<ProofStep>, target: Bytes, root: Bytes): bool
  {
    FoldIntended(h, doubleHash, proof, target) == Some(root)
  }

  /** One non-promoted step moves the running digest from a node to its parent. */
  lemma SiblingStepClimbs(h: Hasher, doubleHash: bool, level: Level, index: nat, rest: seq<ProofStep>)
    requires index < |level| && !Promoted(level, index)
    ensures 2 * (index / 2) < |level|
    ensures FoldIntended(h, doubleHash, [SiblingStep(level, index)] + rest, level[index]) ==
            FoldIntended(h, doubleHash, rest, Parent(h, doubleHash, level, index / 2))
  {
    if index % 2 == 1 {
      FoldIntendedLeft(h, doubleHash, level[index - 1], rest, level[index]);
      assert 2 * (index / 2) + 1 == index;
    } else {
      FoldIntendedRight(h, doubleHash, level[index + 1], rest, level[index]);
      assert 2 * (index / 2) == index;
    }
  }

  /** A left step carrying the hex of `sibling` prepends the sibling to the running hash. */
  lemma FoldIntendedLeft(h: Hasher, doubleHash: bool, sibling: Bytes, rest: seq<ProofStep>, acc: Bytes)
    ensures FoldIntended(h, doubleHash, [ProofStep(Left, HexEncodedString(sibling, false))] + rest, acc) ==
            FoldIntended(h, doubleHash, rest, Digest(h, doubleHash, sibling + acc))
  {
    HexRoundTrip(sibling, false);
    var p := [ProofStep(Left, HexEncodedString(sibling, false))] + rest;
    assert p[1..] == rest;
  }

  /** A right step carrying the hex of `sibling` appends the sibling to the running hash. */
  lemma FoldIntendedRight(h: Hasher, doubleHash: bool, sibling: Bytes, rest: seq<ProofStep>, acc: Bytes)
    ensures FoldIntended(h, doubleHash, [ProofStep(Right, HexEncodedString(sibling, false))] + rest, acc) ==
            FoldIntended(h, doubleHash, rest, Digest(h, doubleHash, acc + sibling))
  {
    HexRoundTrip(sibling, false);
    var p := [ProofStep(Right, HexEncodedString(sibling, false))] + rest;
    assert p[1..] == rest;
  }

  /** A promoted node is its own parent. */
  lemma PromotedIsParent(h: Hasher, doubleHash: bool, level: Level, index: nat)
    requires index < |level| && Promoted(level, index)
    ensures 2 * (index / 2) == index
    ensures Parent(h, doubleHash, level, index / 2) == level[index]
  {
    assert index % 2 == 0;
  }

  /** Replaying the proof of node `index` of level `x` from that node climbs back to the root. */
  lemma {:induction false} ProofPathClimbs(h: Hasher, doubleHash: bool, levels: seq<Level>, x: nat, index: nat)
    requires WellShaped(levels) && Chained(h, doubleHash, levels)
    requires x < |levels| && index < |levels[x]|
    ensures FoldIntended(h, doubleHash, ProofPath(levels, x, index), levels[x][index]) == Some(levels[0][0])
    decreases x
  {
    if x > 0 {
      var level := levels[x];
      var k := index / 2;
      var rest := ProofPath(levels, x - 1, k);
      ProofPathClimbs(h, doubleHash, levels, x - 1, k);
      assert levels[x - 1] == NextLevel(h, doubleHash, level);
      NextLevelAt(h, doubleHash, level, k);
      if Promoted(level, index) {
        assert ProofPath(levels, x, index) == rest;
        PromotedIsParent(h, doubleHash, level, index);
      } else {
        assert ProofPath(levels, x, index) == [SiblingStep(level, index)] + rest;
        SiblingStepClimbs(h, doubleHash, level, index, rest);
      }
    }
  }

  /** Every leaf's proof is accepted by the corrected validator against the tree's root. */
  lemma EveryProofValidates(h: Hasher, doubleHash: bool, leaves: Level, index: nat)
    requires index < |leaves|
    ensures var t := Tower(h, doubleHash, leaves);
            WellShaped(t) &&
            ValidateIntended(h, doubleHash, ProofPath(t, |t| - 1, index), leaves[index], Root(h, doubleHash, leaves))
  {
    var t := Tower(h, doubleHash, leaves);
    TowerWellShaped(h, doubleHash, leaves);
    TowerChained(h, doubleHash, leaves);
    ProofPathClimbs(h, doubleHash, t, |t| - 1, index);
    assert t[|t| - 1] == Bottom(t) == leaves;
    assert Root(h, doubleHash, leaves) == t[0][0];
  }

  /* ---------------- the discrepancy, on a concrete hash ---------------- */

  /** A two-leaf tree, single hashing: one step, the right sibling; the code as written accepts it only when b is the five bytes of "right" or on a hash collision. */
  lemma TwoLeafProofAsWritten(h: Hasher, a: Bytes, b: Bytes)
    ensures Tower(h, false, [a, b]) == [[h(a + b)], [a, b]]
    ensures WellShaped(Tower(h, false, [a, b])) &&
            ProofPath(Tower(h, false, [a, b]), 1, 0) == [ProofStep(Right, HexEncodedString(b, false))]
    ensures ValidateAsWritten(h, false, [ProofStep(Right, HexEncodedString(b, false))], a, h(a + b)) <==>
            h(a + Utf8(Right)) == h(a + b)
  {
    var leaves: Level := [a, b];
    assert NextLevel(h, false, leaves) == [h(a + b)];
    var t := Tower(h, false, leaves);
    TowerWellShaped(h, false, leaves);
    TowerUnfold(h, false, leaves);
    SingleLeafTower(h, false, h(a + b));
    assert t == [[h(a + b)], leaves];
    var proof := [ProofStep(Right, HexEncodedString(b, false))];
    assert ProofPath(t, 1, 0) == proof;
    assert FoldAsWritten(h, false, proof, a) == Some(h(a + Utf8(Right)));
    HexInjective(h(a + Utf8(Right)), h(a + b), false);
  }

  /** A stand-in hash function: 32 copies of the input length modulo 256. */
  function LengthDigest(x: Bytes): (r: Bytes)
    ensures |r| == DigestLength && r[0] as int == |x| % 256
  {
    seq(DigestLength, _ => (|x| % 256) as Byte)
  }

  const LengthHash: Hasher := LengthDigest

  /**
   * The stand-in hash has the 32-byte width of SHA-256. Two one-byte leaves
   * [0] and [1], single hashing: the corrected validator
   * accepts the proof of leaf 0, while the code as written hashes [0] + "right"
   * (six bytes) where it should hash [0, 1] (two bytes), and rejects it.
   */
  lemma AsWrittenRejectsHonestProof()
    ensures FixedWidth(LengthHash)
    ensures var leaves: Level := [[0], [1]];
            var t := Tower(LengthHash, false, leaves);
            WellShaped(t) &&
            var proof := ProofPath(t, |t| - 1, 0);
            ValidateIntended(LengthHash, false, proof, leaves[0], Root(LengthHash, false, leaves)) &&
            !ValidateAsWritten(LengthHash, false, proof, leaves[0], Root(LengthHash, false, leaves))
  {
    forall x: Bytes
      ensures |LengthHash(x)| == DigestLength
    {
      assert LengthHash(x) == LengthDigest(x);
    }
    var a: Bytes, b: Bytes := [0], [1];
    var leaves: Level := [a, b];
    TwoLeafProofAsWritten(LengthHash, a, b);
    EveryProofValidates(LengthHash, false, leaves, 0);
    var t := Tower(LengthHash, false, leaves);
    assert |t| == 2 && Root(LengthHash, false, leaves) == LengthHash(a + b);
    LengthHashSeparates(a, b);
  }

  lemma LengthHashSeparates(a: Bytes, b: Bytes)
    requires |a| == 1 && |b| == 1
    ensures LengthHash(a + Utf8(Right)) != LengthHash(a + b)
  {
    Utf8OfTags();
    var x, y := a + Utf8(Right), a + b;
    assert |x| == 6 && |y| == 2;
    assert LengthHash(x) == LengthDigest(x) && LengthHash(y) == LengthDigest(y);
    assert LengthDigest(x)[0] != LengthDigest(y)[0];
  }
}
