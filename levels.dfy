/**
 * The shape of a Merkle tree as the engine stores it: a sequence of levels
 * running from the root (index 0) down to the leaves (last index). Each level
 * is obtained from the one below it by hashing adjacent pairs and promoting an
 * unpaired last node unchanged.
 */
module Levels {
  import opened Encoding
  import opened Hashing

  type Level = seq<Bytes>

  /** The level that holds the leaves: the last one. */
  function Bottom(levels: seq<Level>): Level
    requires |levels| > 0
  {
    levels[|levels| - 1]
  }

  /**
   * Node k of the level above `level`: the digest of the pair (2k, 2k+1), left
   * operand first, or node 2k itself when it has no right partner.
   */
  function Parent(h: Hasher, doubleHash: bool, level: Level, k: nat): (r: Bytes)
    requires 2 * k < |level|
    ensures FixedWidth(h) ==> |r| == DigestLength || r == level[|level| - 1]
  {
    if 2 * k + 1 < |level| then Digest(h, doubleHash, level[2 * k] + level[2 * k + 1])
    else level[2 * k]
  }

  /** The level computed from `level`: pairs hashed left to right, an odd last node promoted. */
  function NextLevel(h: Hasher, doubleHash: bool, level: Level): (r: Level)
    ensures |r| == (|level| + 1) / 2
    ensures |level| > 1 ==> |r| < |level|
  {
    if |level| <= 1 then level
    else [Digest(h, doubleHash, level[0] + level[1])] + NextLevel(h, doubleHash, level[2..])
  }

  /** Every node of the next level is the parent of its two children (or its promoted child). */
  lemma {:induction false} NextLevelAt(h: Hasher, doubleHash: bool, level: Level, k: nat)
    requires 2 * k < |level|
    ensures k < |NextLevel(h, doubleHash, level)|
    ensures NextLevel(h, doubleHash, level)[k] == Parent(h, doubleHash, level, k)
  {
    if |level| > 1 && k > 0 {
      NextLevelAt(h, doubleHash, level[2..], k - 1);
      assert level[2..][2 * (k - 1)] == level[2 * k];
      assert 2 * (k - 1) + 1 < |level[2..]| ==> level[2..][2 * (k - 1) + 1] == level[2 * k + 1];
    }
  }

  /** A level that agrees node by node with Parent, and has the right length, is the next level. */
  lemma NextLevelFromParents(h: Hasher, doubleHash: bool, level: Level, next: Level)
    requires |level| <= 2 * |next| <= |level| + 1
    requires forall k :: 0 <= k < |next| ==> next[k] == Parent(h, doubleHash, level, k)
    ensures next == NextLevel(h, doubleHash, level)
  {
    var r := NextLevel(h, doubleHash, level);
    assert |r| == |next|;
    forall k | 0 <= k < |r|
      ensures r[k] == next[k]
    {
      NextLevelAt(h, doubleHash, level, k);
    }
  }

  /**
   * The levels `makeTree` produces from a non-empty leaf level: next levels are
   * prepended until the top level has a single node.
   */
  function Tower(h: Hasher, doubleHash: bool, level: Level): (t: seq<Level>)
    requires |level| > 0
    ensures |t| > 0 && Bottom(t) == level
    ensures |t[0]| == 1
    decreases |level|
  {
    if |level| == 1 then [level]
    else Tower(h, doubleHash, NextLevel(h, doubleHash, level)) + [level]
  }

  /** A level with more than one node sits below the tower of its next level. */
  lemma TowerUnfold(h: Hasher, doubleHash: bool, level: Level)
    requires |level| > 1
    ensures Tower(h, doubleHash, level) == Tower(h, doubleHash, NextLevel(h, doubleHash, level)) + [level]
  {
  }

  /** Prepending the next level of the top level keeps a partial construction on track. */
  lemma TowerGrows(h: Hasher, doubleHash: bool, top: Level, rest: seq<Level>, next: Level, tower: seq<Level>)
    requires |top| > 1 && next == NextLevel(h, doubleHash, top)
    requires Tower(h, doubleHash, top) + rest == tower
    ensures Tower(h, doubleHash, next) + ([top] + rest) == tower
  {
    TowerUnfold(h, doubleHash, top);
    var up := Tower(h, doubleHash, next);
    var lhs := up + ([top] + rest);
    assert |lhs| == |tower|;
    forall i | 0 <= i < |lhs|
      ensures lhs[i] == tower[i]
    {
      assert i < |up| ==> lhs[i] == up[i];
    }
  }

  /** The root of the tree over `leaves`: the only node of the top level; a single leaf is its own root. */
  function Root(h: Hasher, doubleHash: bool, leaves: Level): (r: Bytes)
    requires |leaves| > 0
    ensures Tower(h, doubleHash, leaves)[0] == [r]
    ensures |leaves| == 1 ==> r == leaves[0]
  {
    Tower(h, doubleHash, leaves)[0][0]
  }

  /** Sizes only: a single root node, more than one node on every other level, level i has ceil(|level i+1| / 2) nodes. */
  ghost predicate WellShaped(levels: seq<Level>)
  {
    |levels| > 0 && |levels[0]| == 1 &&
    (forall i :: 0 < i < |levels| ==> |levels[i]| > 1) &&
    (forall i, j {:trigger levels[i], levels[j]} :: 0 <= i && j == i + 1 < |levels| ==> |levels[i]| == (|levels[j]| + 1) / 2)
  }

  /** Each level is the NextLevel of the level below it. */
  ghost predicate Chained(h: Hasher, doubleHash: bool, levels: seq<Level>)
  {
    forall i, j {:trigger levels[i], levels[j]} :: 0 <= i && j == i + 1 < |levels| ==> levels[i] == NextLevel(h, doubleHash, levels[j])
  }

  /** What makeTree leaves behind is well shaped. */
  lemma {:induction false} TowerWellShaped(h: Hasher, doubleHash: bool, level: Level)
    requires |level| > 0
    ensures WellShaped(Tower(h, doubleHash, level))
    decreases |level|
  {
    if |level| > 1 {
      var next := NextLevel(h, doubleHash, level);
      var up := Tower(h, doubleHash, next);
      var t := Tower(h, doubleHash, level);
      TowerWellShaped(h, doubleHash, next);
      assert t == up + [level];
      assert forall i :: 0 <= i < |up| ==> t[i] == up[i];
      assert t[|up|] == level && up[|up| - 1] == next;
    }
  }

  /** What makeTree leaves behind is chained by NextLevel. */
  lemma {:induction false} TowerChained(h: Hasher, doubleHash: bool, level: Level)
    requires |level| > 0
    ensures Chained(h, doubleHash, Tower(h, doubleHash, level))
    decreases |level|
  {
    var t := Tower(h, doubleHash, level);
    if |level| > 1 {
      var next := NextLevel(h, doubleHash, level);
      var up := Tower(h, doubleHash, next);
      TowerChained(h, doubleHash, next);
      assert t == up + [level];
      assert Bottom(up) == next;
      forall i | 0 <= i < |t| - 1
        ensures t[i] == NextLevel(h, doubleHash, t[i + 1])
      {
        if i < |up| - 1 {
          assert t[i] == up[i] && t[i + 1] == up[i + 1];
        } else {
          assert t[i] == next && t[i + 1] == level;
        }
      }
    }
  }

  /**
   * Conversely, well-shaped levels chained by NextLevel are the construction
   * over their own bottom level: the two descriptions of a built tree agree.
   */
  lemma {:induction false} ChainedTower(h: Hasher, doubleHash: bool, levels: seq<Level>)
    requires WellShaped(levels) && Chained(h, doubleHash, levels)
    ensures levels == Tower(h, doubleHash, Bottom(levels))
    decreases |levels|
  {
    if |levels| > 1 {
      var n := |levels|;
      var init := levels[..n - 1];
      var bottom := levels[n - 1];
      DropBottom(h, doubleHash, levels);
      ChainedTower(h, doubleHash, init);
      TowerUnfold(h, doubleHash, bottom);
      assert levels == init + [bottom];
    }
  }

  /** Without its bottom level, a well-shaped chained sequence stays so; its new bottom is the next level. */
  lemma DropBottom(h: Hasher, doubleHash: bool, levels: seq<Level>)
    requires WellShaped(levels) && Chained(h, doubleHash, levels) && |levels| > 1
    ensures var init := levels[..|levels| - 1];
            WellShaped(init) && Chained(h, doubleHash, init) &&
            Bottom(init) == NextLevel(h, doubleHash, Bottom(levels)) && |Bottom(levels)| > 1
  {
    var n := |levels|;
    var init := levels[..n - 1];
    assert levels[n - 2] == NextLevel(h, doubleHash, levels[n - 1]);
    assert forall i :: 0 <= i < n - 1 ==> init[i] == levels[i];
  }

  /** The number of levels grows only logarithmically: 2^(|t|-2) < |leaves| <= 2^(|t|-1). */
  lemma {:induction false} TowerHeight(h: Hasher, doubleHash: bool, level: Level)
    requires |level| > 0
    ensures var t := Tower(h, doubleHash, level);
            |level| <= Pow2(|t| - 1) && (|t| > 1 ==> Pow2(|t| - 2) < |level|)
    decreases |level|
  {
    if |level| > 1 {
      var next := NextLevel(h, doubleHash, level);
      var up := Tower(h, doubleHash, next);
      TowerHeight(h, doubleHash, next);
      assert |Tower(h, doubleHash, level)| == |up| + 1;
      assert Pow2(|up|) == 2 * Pow2(|up| - 1);
      if |up| > 1 {
        assert Pow2(|up| - 1) == 2 * Pow2(|up| - 2);
      }
    }
  }

  function Pow2(n: nat): (r: nat)
    ensures r >= 1
  {
    if n == 0 then 1 else 2 * Pow2(n - 1)
  }

  /** One leaf is its own tree: a single level, whose only node is the root. */
  lemma SingleLeafTower(h: Hasher, doubleHash: bool, leaf: Bytes)
    ensures Tower(h, doubleHash, [leaf]) == [[leaf]]
    ensures Root(h, doubleHash, [leaf]) == leaf
  {
  }

  /** With two or more leaves the root is a digest: it is the hash of the two nodes below it. */
  lemma RootOfSeveralLeaves(h: Hasher, doubleHash: bool, leaves: Level)
    requires |leaves| > 1 && FixedWidth(h)
    ensures |Tower(h, doubleHash, leaves)| > 1
    ensures var t := Tower(h, doubleHash, leaves);
            |t[1]| == 2 && Root(h, doubleHash, leaves) == Digest(h, doubleHash, t[1][0] + t[1][1])
    ensures |Root(h, doubleHash, leaves)| == DigestLength
  {
    TowerWellShaped(h, doubleHash, leaves);
    TowerChained(h, doubleHash, leaves);
    var t := Tower(h, doubleHash, leaves);
    assert t[0] == NextLevel(h, doubleHash, t[1]) by {
      assert 0 <= 0 && 1 == 0 + 1 < |t|;
    }
    assert |t[1]| > 1;
    assert |t[0]| == (|t[1]| + 1) / 2;
    NextLevelAt(h, doubleHash, t[1], 0);
  }
}
