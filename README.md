# Merkle tools, modelled in Dafny

This project models the core of the `MerkleTools` Swift library. The library
builds a binary Merkle tree over a list of leaves and hands out inclusion proofs
for them. The model covers:

- The `MerkleTree` record (`State.MerkleTree`). It holds the leaves, the levels
  (root level first, leaf level last) and a readiness flag.
- The `MerkleTools` engine (`Engine.MerkleTools`), a class that updates that record
  in place:
  - leaf ingestion (`addLeaf`, `addLeaves`), as UTF-8 bytes optionally hashed once;
  - tree construction (`makeTree`, `calculateNextLevel`), which hashes adjacent
    pairs and promotes an unpaired last node unchanged;
  - root and leaf queries;
  - proof derivation (`getProof`), a list of `(side, hex sibling)` steps;
  - proof validation (`validateProof`).
- The pure description of a built tree (`Levels`):
  - `NextLevel` and `Tower`, the levels `makeTree` produces;
  - `WellShaped` and `Chained`, the shape and hashing invariant a stored tree keeps.
- The proofs (`Proofs`):
  - `ProofPath`, the steps `getProof` emits;
  - `FoldAsWritten` / `ValidateAsWritten`, what `validateProof` computes as the
    code is written;
  - `FoldIntended` / `ValidateIntended`, the corrected validator. It decodes the
    hex sibling and hashes it with the running digest, sibling first for "left"
    and second for "right".
- The encodings (`Encoding`):
  - `Data.hexEncodedString`, with a decoder as its inverse;
  - `String.data(using: .utf8)`, following RFC 3629 section 3.
- SHA-256 (`Hashing`): it is a parameter `sha256: Hasher`, a total function on
  byte strings. Its 32-byte width is the predicate `FixedWidth`, which only the
  facts about digest lengths assume.

Main results:

- `makeTree` leaves exactly `Tower(leaves)`, and the stored root is its top node.
- The tree's height is logarithmic in the leaf count.
- Every proof `getProof` returns is accepted by the corrected validator against
  the root.
- The validator as written hashes the tag text ("left"/"right") instead of the
  sibling. It never reads the siblings, and it rejects honest proofs
  (see "## Findings").

## Model

| member | source | states |
|---|---|---|
| State.MerkleTree.constructor | MerkleTools/MerkleTree.swift:11-15 | a new record has no leaves, no levels and is not ready |
| Engine.LeafData | MerkleTools/MerkleTools.swift:20-23 | defines the bytes stored for one value, its UTF-8 encoding, hashed once when doHash; hashed it is a digest, unhashed it has 1 to 4 bytes per character |
| Engine.LeavesData | MerkleTools/MerkleTools.swift:27-31 | defines the leaves a list of values adds: one per value, in order, entry i being the leaf data of value i |
| Engine.MerkleTools.constructor | MerkleTools/MerkleTools.swift:11-12 | a new engine owns a fresh, empty, not-ready record and satisfies the state invariant `Valid` |
| Engine.MerkleTools.ResetTree | MerkleTools/MerkleTools.swift:14-16 | a fresh empty record replaces the old one; afterwards the leaf count is 0 and there is no root; `Valid` is kept |
| Engine.MerkleTools.AddLeaf | MerkleTools/MerkleTools.swift:18-25 | the leaves grow by exactly one entry at the end, the UTF-8 bytes of the value (hashed once when doHash); levels untouched; readiness cleared; `Valid` kept |
| Engine.MerkleTools.AddLeaves | MerkleTools/MerkleTools.swift:27-31 | the same as addLeaf on each value in order: the leaves gain `LeavesData(values)`, one per value; readiness is cleared unless the list is empty |
| Engine.MerkleTools.GetLeaf | MerkleTools/MerkleTools.swift:33-39 | None exactly when the index is outside [0, count), otherwise the stored leaf; readiness plays no part |
| Engine.MerkleTools.GetLeafCount | MerkleTools/MerkleTools.swift:41-43 | the count is the number of indices getLeaf answers: i is in [0, count) iff getLeaf(i) is present |
| Engine.MerkleTools.GetTreeReadyState | MerkleTools/MerkleTools.swift:45-47 | a ready tree has a root exactly when it has leaves; a tree that is not ready has no root |
| Engine.MerkleTools.GetMerkleRoot | MerkleTools/MerkleTools.swift:62-68 | present iff ready with levels; then the top level is that single node, and it equals `Root` of the construction over the current leaves |
| Engine.MerkleTools.CalculateNextLevel | MerkleTools/MerkleTools.swift:137-153 | the loop's output equals `NextLevel` of the top level: node k is the digest of nodes 2k and 2k+1, or node 2k promoted when it is last |
| Engine.MerkleTools.MakeTree | MerkleTools/MerkleTools.swift:49-60 | with leaves, the levels become `Tower(leaves)` (root level first) and the root is `Root(leaves)`; without leaves the levels stay empty; the leaves are unchanged; the tree is ready and `Valid` holds |
| Engine.MerkleTools.GetProof | MerkleTools/MerkleTools.swift:71-99 | a proof is returned iff the tree is ready and 0 <= index < leaf count; it is `ProofPath` of that leaf, has at most one step per level below the root, and the corrected validator accepts it from the leaf to the stored root; the inout index ends at 0, or is unchanged on None |
| Engine.MerkleTools.ClimbToRoot | MerkleTools/MerkleTools.swift:79-97 | the loop of getProof yields exactly `ProofPath` from the leaf level and leaves the index at 0 |
| Engine.MerkleTools.ValidateProof | MerkleTools/MerkleTools.swift:101-125 | the loop computes `ValidateAsWritten`; an empty proof is valid iff target and root are equal bytes; any step with a tag other than "left"/"right" makes the result false |
| Encoding.HexEncodedString | MerkleTools/MerkleTools.swift:164-167 | two characters per byte, in order: high nibble then low nibble, lower- or upper-case digits |
| Encoding.HexRoundTrip | MerkleTools/MerkleTools.swift:164-167 | decoding the hex text of any bytes gives those bytes back, in either case |
| Encoding.HexInjective | MerkleTools/MerkleTools.swift:124 | comparing hex renderings is comparing the bytes: equal text iff equal data |
| Encoding.Utf8Char | MerkleTools/MerkleTools.swift:20 | one to four bytes per scalar value, one byte exactly for ASCII, and then the code itself |
| Encoding.Utf8 | MerkleTools/MerkleTools.swift:20 | the encoding of a string has between 1 and 4 bytes per character |
| Encoding.Utf8Ascii | MerkleTools/MerkleTools.swift:20 | ASCII text encodes to one byte per character, equal to its code |
| Encoding.Utf8OfTags | MerkleTools/MerkleTools.swift:109-117 | the bytes hashed for the tags are 6c 65 66 74 ("left") and 72 69 67 68 74 ("right") |
| Hashing.Digest | MerkleTools/MerkleTools.swift:143-147 | one hashing step (single or double) yields 32 bytes whenever the hash does |
| Levels.Parent | MerkleTools/MerkleTools.swift:141-150 | defines node k of the next level, the digest of nodes 2k and 2k+1 or the unpaired node 2k; it is either a digest or the level's last node |
| Levels.Root | MerkleTools/MerkleTools.swift:66 | defines the root, the only node of the top level of the construction; a single leaf is its own root |
| Levels.NextLevel | MerkleTools/MerkleTools.swift:137-153 | the next level has ceil(n/2) nodes, strictly fewer than a level of two or more |
| Levels.NextLevelAt | MerkleTools/MerkleTools.swift:141-151 | node k of the next level is the parent of nodes 2k, 2k+1 (or node 2k when it is unpaired) |
| Levels.NextLevelFromParents | MerkleTools/MerkleTools.swift:137-153 | a level of ceil(n/2) nodes that agrees with the parent rule at every index is the next level |
| Levels.Tower | MerkleTools/MerkleTools.swift:53-57 | the construction ends with the leaf level at the bottom and a single node on top |
| Levels.TowerGrows | MerkleTools/MerkleTools.swift:55-57 | prepending the next level of the top level keeps a partial construction a suffix of the final one |
| Levels.TowerWellShaped | MerkleTools/MerkleTools.swift:49-60 | the built levels are well shaped: one root, level i has ceil(size of level i+1 / 2) nodes, every non-root level has more than one |
| Levels.TowerChained | MerkleTools/MerkleTools.swift:49-60 | each built level is `NextLevel` of the level below it |
| Levels.ChainedTower | MerkleTools/MerkleTools.swift:49-60 | conversely, well-shaped chained levels are exactly the construction over their own bottom level |
| Levels.TowerHeight | MerkleTools/MerkleTools.swift:55-57 | with t levels, 2^(t-2) < leaf count <= 2^(t-1): the height is logarithmic |
| Levels.SingleLeafTower | MerkleTools/MerkleTools.swift:52-57 | one leaf gives one level, and the root is the leaf itself, not its hash |
| Levels.RootOfSeveralLeaves | MerkleTools/MerkleTools.swift:62-68 | with two or more leaves the root is the digest of the two nodes below it, 32 bytes long |
| Proofs.SiblingStep | MerkleTools/MerkleTools.swift:87-92 | an odd index gets a "left" step carrying the hex of node index-1, an even one a "right" step carrying the hex of node index+1, which then exists |
| Proofs.ProofPathUnfold | MerkleTools/MerkleTools.swift:80-97 | one loop iteration: a promoted node adds no step, any other adds its sibling step; the halved index is in range on the level above |
| Proofs.Promoted | MerkleTools/MerkleTools.swift:82 | the node skipped by getProof is the unpaired last node of an odd-length level; it sits at an even index and its halved index is the last node of the level above |
| Proofs.ProofPath | MerkleTools/MerkleTools.swift:79-97 | defines the proof getProof builds from level x: a sibling step per level, none where the node is promoted; it has at most x steps, every one tagged "left" or "right" |
| Proofs.ProofPathFull | MerkleTools/MerkleTools.swift:80-97 | when no level below is odd-sized, every level adds exactly one step |
| Proofs.SingleLevelProof | MerkleTools/MerkleTools.swift:75-98 | in a one-leaf tree the only index is 0 and its proof is empty |
| Proofs.FoldAsWritten | MerkleTools/MerkleTools.swift:105-122 | defines the loop of validateProof as written, which folds each tag's own bytes into the running hash; it finishes exactly when every tag is "left" or "right", and a finished fold over at least one step has digest width |
| Proofs.ValidateAsWritten | MerkleTools/MerkleTools.swift:101-125 | defines validateProof as written: a hex comparison against the root; an accepted proof carries only known tags, and an accepted non-empty proof matches only a root of digest width |
| Proofs.EmptyProofAsWritten | MerkleTools/MerkleTools.swift:102-104 | the empty proof validates iff target and root are the same bytes |
| Proofs.UnknownTagRejected | MerkleTools/MerkleTools.swift:119-121 | a proof with any step tagged neither "left" nor "right" is rejected, whatever the other steps |
| Proofs.SiblingsIgnoredAsWritten | MerkleTools/MerkleTools.swift:107-118 | as written, two proofs with the same tags validate alike whatever their siblings |
| Proofs.SiblingStepClimbs | MerkleTools/MerkleTools.swift:87-92 | replaying a sibling step from a node gives its parent, left operand first |
| Proofs.PromotedIsParent | MerkleTools/MerkleTools.swift:82-84 | a promoted node at index i is its own parent at index i/2 |
| Proofs.ProofPathClimbs | MerkleTools/MerkleTools.swift:80-97 | replaying the proof of any node of a well-shaped chained tree from that node ends at the root |
| Proofs.EveryProofValidates | MerkleTools/MerkleTools.swift:71-99 | for every leaf of every tree, the proof getProof derives is accepted by the corrected validator against the root |
| Proofs.TwoLeafProofAsWritten | MerkleTools/MerkleTools.swift:107-118 | for leaves a, b the proof of a is one "right" step carrying hex(b); as written it validates iff h(a + "right") == h(a + b), that is only when b is the five bytes of "right" or on a hash collision |
| Proofs.AsWrittenRejectsHonestProof | MerkleTools/MerkleTools.swift:107-118 | there is a hash and a two-leaf tree whose honest proof the corrected validator accepts and the code as written rejects |
| Scenarios.AddLeafThenGetLeaf | MerkleToolsTests/MerkleToolsTests.swift:24-29 | a leaf added with hashing to a fresh engine reads back at index 0 as the hash of the value's UTF-8 bytes |
| Scenarios.BuildThenGetRoot | MerkleTools/MerkleTools.swift:27-68 | after adding n > 0 values and building, the engine is ready, counts n leaves, and its root is `Root` of those leaves |
| Scenarios.BuildThenProve | MerkleTools/MerkleTools.swift:71-99 | on a freshly built tree a proof exists exactly for the indices of the values, and the corrected validator accepts it against the root |

## Left out

- SHA-256 itself (CommonCrypto's `CC_SHA256`) is a foreign call. It is a parameter of the engine. Its 32-byte width is the predicate `FixedWidth`. Only the facts about digest lengths assume it: in `Engine.LeafData`, `Hashing.Digest`, `Levels.Parent`, `Levels.RootOfSeveralLeaves`, `Proofs.FoldAsWritten` and `Proofs.ValidateAsWritten`.
- Swift's `Int` is 64-bit. The model uses unbounded integers, because counts and indices never come near the bound.
- `floor(Double(index) / 2)` is written `index / 2`. The index is non-negative there, and indices are far below 2^53, so the floating-point detour is exact.
- Swift's `String ==` compares by Unicode canonical equivalence. The model compares tags and hex texts as sequences of scalar values. A caller's proof may carry any string as a tag, but no other string is canonically equivalent to "left" or "right", and two hex texts are canonically equivalent only when they are identical, so the two comparisons agree.
- `UIKit`, `NSObject` and `XCTest` are left out. The unit test is modelled as the method `Scenarios.AddLeafThenGetLeaf`.
- `getLeaf` returns the stored `Data`, and `getProof` returns `[(String, String)]`. The model uses `Option<Bytes>` and `Option<seq<ProofStep>>`.
- Engine.MerkleTools.GetProof: a ready tree without levels makes the source trap on `tree.levels[-1]`. The model turns that case into the precondition `tree.isReady ==> tree.levels != []`.
- Engine.MerkleTools.GetProof: the source's `inout` index is modelled as the input `index` plus the out-parameter `indexAfter`.
- Engine.MerkleTools.GetProof: validity of the returned proof is stated against the stored root `tree.levels[0][0]`, which is what `getMerkleRoot` returns. It is stated for the hashing mode of the last construction, kept in the ghost field `builtDoubleHashed`. The engine itself does not remember that mode.
- Engine.MerkleTools.ClimbToRoot is the loop of `getProof`, taken out as its own method.
- Engine.MerkleTools.ValidateProof keeps the code's behaviour (see "## Findings"). The corrected validator is the pure function `Proofs.ValidateIntended`, and the engine has no method for it.
- `Data.hexEncodedString` is used by the engine only in lower case. The model covers both cases, and the proofs use lower case.

## Findings

| source | as written | input that shows it | evidently intended | confidence | as-written member | corrected member |
|---|---|---|---|---|---|---|
| MerkleTools/MerkleTools.swift:107-118 | each step hashes the running digest with the UTF-8 bytes of the tag (`proof[x].0`, "left" or "right"), never with the sibling (`proof[x].1`) | two one-byte leaves [0] and [1], single hashing, a hash whose digest depends on the input length: the honest proof of leaf 0 is [("right", "01")]; the code hashes [0] + "right" (6 bytes) instead of [0, 1] (2 bytes), so it rejects the proof; under real SHA-256 the rejection holds unless sha256([0] + "right") collides with sha256([0, 1]) | decode the hex sibling and hash it with the running digest, sibling first for "left", second for "right"; then every proof from getProof is accepted against the root | not executed | Proofs.AsWrittenRejectsHonestProof | Proofs.EveryProofValidates |
