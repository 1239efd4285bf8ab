/**
 * The engine's mutable state record: the leaves in insertion order, the levels
 * of the last construction (root level first, leaf level last) and the flag
 * that says whether those levels reflect the current leaves.
 */
module State {
  import opened Levels

  class MerkleTree {
    var leaves: Level
    var levels: seq<Level>
    var isReady: bool

    /** A new record holds no leaves and no levels, and is not ready. */
    constructor ()
      ensures leaves == []
      ensures levels == []
      ensures !isReady
    {
      leaves := [];
      levels := [];
      isReady := false;
    }
  }
}
