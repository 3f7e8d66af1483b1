# Merkle Mountain Range accumulator in Dafny

This project models the `MerkleMountainRange` accumulator from `src/lib.rs` and proves its properties.

The accumulator stores its levels in one list per level:
- Level 0 holds the leaf digests.
- Level k+1 holds the parents of consecutive pairs of level k.
- A parent is the hash of the 64-byte concatenation of its two children.

An append pushes a leaf and then carries upward: while the current level ends in a complete pair, it pushes that pair's parent onto the next level. Peaks are the last nodes of the odd-length levels, lowest level first. The root is the left fold of the peaks under the pair hash. An inclusion proof holds the siblings of a leaf's ancestors up to the first ancestor that is a peak. Verification replays the proof, looks for the result among the given peaks, and bags the peaks into the root.

The project has four modules:
- `Digests`: the 32-byte digest type, the pair buffer and the pair hash `Combine`. The hash algorithm is a parameter of type `HashFn`, so every result holds for any hash function.
- `Bits`: powers of two, right shifts, the bits of the leaf count, popcount and floor(log2).
- `Levels`: the accumulator as pure functions of its leaves:
  - `Level(digest, leaves, k)` gives the contents of level k.
  - `Peaks` and `Bagged` give the peaks and the root.
  - `Walk` gives the hash a proof reaches.
  - `IsInclusionProof` describes a well-formed inclusion proof.
  - The lemmas relating these functions to each other and to the bits of the leaf count.
- `Mountain`: the class `MerkleMountainRange`. Its field `layers` is updated in place by its methods. Its invariant `Valid()` states that every stored level equals `Level` of the stored leaves, and that the leaf count is at most 2^maxHeight − 1. The node, level and top-level queries (`GetNode`, `GetLevel`, `TopLevel`) are functions of the stored levels. The peak, root and proof routines are loops proved against the `Levels` functions.

The methods are proved against these reference definitions in `Levels` and `Digests`, each a direct recursive or expression form of the source:
- `Digests.Combine` (src/lib.rs:97-104): `hash_node_pair`, the digest of the pair buffer, left child first.
- `Levels.Level` (src/lib.rs:73-94): the contents of level k as a function of the leaves.
- `Levels.Peaks` (src/lib.rs:238-242): the last node of every odd-length level, lowest level first.
- `Levels.Bagged` (src/lib.rs:146-149): the left fold of the peaks under the pair hash.
- `Levels.Sibling` (src/lib.rs:172-176): the index of the other child of the same parent.
- `Levels.Step` (src/lib.rs:199-203): one verification step, ordered by parity.
- `Levels.Walk` (src/lib.rs:197-208): the hash a proof reaches from a leaf.

## Model

| member | source | states |
|---|---|---|
| Digests.PairBytes | src/lib.rs:97-104 | the buffer is 64 bytes with the left digest in bytes 0..32 and the right digest in bytes 32..64 |
| Mountain.MerkleMountainRange.constructor | src/lib.rs:20-31 | a new accumulator has `maxHeight` levels, all empty, and satisfies the invariant |
| Mountain.MerkleMountainRange.AppendLeaf | src/lib.rs:58-64 | below capacity the leaf is appended to level 0 and all levels again equal the levels of the longer leaf sequence; each level only grows at its end, by at most one node; at capacity it returns false and changes nothing |
| Mountain.MerkleMountainRange.AppendData | src/lib.rs:67-70 | appends the digest of the data under the same conditions as `AppendLeaf` |
| Mountain.MerkleMountainRange.BuildPeaks | src/lib.rs:73-94 | starting from levels that are correct for all leaves but the last, the carry loop restores every level to `Level` of the full leaf sequence, within the `maxHeight` levels |
| Mountain.MerkleMountainRange.PushParent | src/lib.rs:80-88 | one carry step pushes the parent of the last two nodes of a level onto the next level and changes nothing else |
| Mountain.MerkleMountainRange.GetNode | src/lib.rs:107-118 | returns a node exactly when the level exists and the index is below n / 2^level; the node is entry `index` of that level |
| Mountain.MerkleMountainRange.GetLevel | src/lib.rs:121-128 | returns a level exactly when it exists; that level is `Level` of the leaves and holds n / 2^level nodes |
| Mountain.MerkleMountainRange.TopLevel | src/lib.rs:48-55 | None exactly when there are no leaves; otherwise t with 2^t ≤ n < 2^(t+1), level t non-empty and level t+1 empty |
| Mountain.MerkleMountainRange.GetPeaks | src/lib.rs:235-246 | None exactly when there are no leaves; otherwise the last node of each odd-length level, lowest level first, popcount(n) of them |
| Mountain.MerkleMountainRange.Bag | src/lib.rs:146-149 | the left fold of the peaks under the pair hash, seeded with the first peak |
| Mountain.MerkleMountainRange.ComputeRoot | src/lib.rs:131-153 | None exactly when there are no leaves; otherwise the non-empty peak list bagged |
| Mountain.MerkleMountainRange.GenerateProof | src/lib.rs:156-183 | None exactly when the index is out of range; otherwise a proof of fewer than maxHeight siblings; entry j is the sibling of the leaf's level-j ancestor, which is paired; the ancestor at the proof's length is even and last in its level, i.e. a peak |
| Mountain.MerkleMountainRange.VerifyProof | src/lib.rs:186-214 | true exactly when walking the proof from the leaf reaches one of the given peaks and those peaks bag to the given root |
| Mountain.MerkleMountainRange.CheckInclusion | src/main.rs:258-268 | the round trip: a proof generated for any stored leaf verifies against the current peaks and root |
| Mountain.LevelGuardAdmitsMissingLevel | src/lib.rs:109-111 | the source's guard `level > max_height` lets level max_height through, but no level max_height is stored |
| Levels.Pairs | src/lib.rs:80-88 | pairing a level halves its length, rounding down |
| Levels.PairsAt | src/lib.rs:80-86 | parent j is the pair hash of children 2j and 2j+1 |
| Levels.ParentOfChildren | src/lib.rs:80-86 | node j of level k+1 is the pair hash of nodes 2j and 2j+1 of level k |
| Levels.LevelSize | src/lib.rs:73-94 | level k holds n shifted right by k nodes |
| Levels.LevelSizeDiv | src/lib.rs:73-94 | level k holds floor(n / 2^k) nodes |
| Levels.AppendExtendsLevel | src/lib.rs:58-64 | appending a leaf extends each level at its end by at most one node |
| Levels.CarryStep | src/lib.rs:76-92 | when level k has just grown by one node, level k+1 grows by the parent of its last pair if the length of level k is now even, and is unchanged otherwise |
| Levels.CarryAdvance | src/lib.rs:80-88 | pushing that parent moves the carry up one level |
| Levels.CarryDone | src/lib.rs:88-92 | stopping at the first level of odd length leaves every level correct |
| Levels.CarryBelowTop | src/lib.rs:75-88 | below capacity, a level with a complete pair lies under the top level, so the push onto level+1 is in range |
| Levels.CarryReachesTop | src/lib.rs:75-88 | at leaf number 2^maxHeight every level has a complete pair, the top one included, so the push would go to a level that does not exist |
| Levels.TopLevelIsHighest | src/lib.rs:48-55 | floor(log2 n) is below maxHeight, its level is non-empty and the level above is empty |
| Levels.PeakIffBit | src/lib.rs:239-241 | level k has odd length, i.e. holds a peak, exactly when bit k of n is set |
| Levels.PeakCountBelow | src/lib.rs:238-242 | the peaks below level k plus the set bits of n shifted by k add up to popcount(n) |
| Levels.PeakCount | src/lib.rs:235-246 | the number of peaks is popcount(n) |
| Levels.PeaksNonEmpty | src/lib.rs:133-146 | a non-empty accumulator has a peak, so indexing the first peak is safe |
| Levels.PeakInPeaks | src/lib.rs:238-242 | the last node of any odd-length level is among the peaks |
| Levels.PeaksAboveEmpty | src/lib.rs:238-242 | levels above an empty level add no peaks |
| Levels.SmallRanges | src/lib.rs:131-153 | with 1, 2 and 3 leaves a, b, c the peaks are [a], [H(a,b)] and [c, H(a,b)], and the roots are a, H(a,b) and H(c, H(a,b)) |
| Levels.PairStep | src/lib.rs:172-180 | hashing a paired entry with its sibling, ordered by parity, gives its parent at index / 2 |
| Levels.StepToParent | src/lib.rs:172-180 | the same step between level k and level k+1 of the accumulator |
| Levels.WalkUp | src/lib.rs:197-207 | one step of the verification walk moves from a paired node to its parent |
| Levels.WalkFromStep | src/lib.rs:197-207 | along an inclusion proof, the walk from the level-m ancestor continues from the level-(m+1) ancestor |
| Levels.WalkFrom | src/lib.rs:197-207 | the walk from the level-m ancestor through the rest of the proof reaches the peak where the proof ends |
| Levels.ProofReachesPeak | src/lib.rs:156-214 | walking a generated proof up from its leaf gives one of the peaks |
| Bits.ShiftIsDiv | src/lib.rs:179 | halving an index k times is dividing it by 2^k |
| Bits.Log2Bounds | src/lib.rs:53 | the index of the highest set bit t of n satisfies 2^t ≤ n < 2^(t+1) |
| Bits.PopcountPositive | src/lib.rs:238-242 | a positive count has a set bit |

## Left out

- The internals of `compute_hash` (src/lib.rs:33-46) are left out. Keccak-256 and BLAKE3 are foreign library calls. The model takes the selected algorithm as the constructor parameter `digest`, a total function to 32-byte digests, and stores `hashType` beside it.
- The `println!` of the peaks in `compute_root` is left out. It is output only.
- `print_tree` and the four SVG renderers (`generate_svg` … `generate_svg4`) are left out. They only produce text and drawings from the levels.
- `src/main.rs` contains its own copy of the accumulator. Only its demo round trip is modelled (`CheckInclusion`). Its extra method `get_peak_hash` is modelled by `GetPeaks`.
- Mountain.MerkleMountainRange.constructor: requires maxHeight ≥ 1, so the model cannot build a zero-level accumulator at all. In the source `new(0, _)` succeeds, and so do `verify_proof` and `get_node`/`get_level` at levels of at least 1, which return None. On such an accumulator `append_leaf`, `append_data`, `top_level`, `get_peaks`, `compute_root`, `generate_proof`, and `get_node`/`get_level` at level 0 panic on `layers[0]`.
- Mountain.MerkleMountainRange.AppendLeaf: at capacity the source panics on an out-of-range level (see Findings). The model instead refuses the leaf, returns false and leaves the state unchanged. The source returns nothing.
- Mountain.MerkleMountainRange.GetNode: at level max_height the source panics on an out-of-range index (see Findings). The model returns None.
- Mountain.MerkleMountainRange.GetLevel: same as GetNode.
- Mountain.MerkleMountainRange.VerifyProof: requires a non-empty peak list, because the source indexes `peaks[0]` and panics on an empty one.
- Mountain.MerkleMountainRange.VerifyProof: takes `leaf_index` as a natural number. Negative `i32` indices, with Rust's truncating `%` and `/`, are not modelled. The source passes in stored indices only.
- Mountain.MerkleMountainRange.VerifyProof: no proof is given that a wrong leaf, a tampered proof or a stale root is rejected. Those properties rest on collision resistance of the hash function, which a model with an arbitrary `HashFn` cannot assume.
- Integer widths are unbounded. The leaf count stays below 2^maxHeight, where the source's `usize` never overflows for realistic heights.
- `usize::BITS - n.leading_zeros() - 1` is modelled as floor(log2 n) (`Log2`). The two agree for every positive n.
- `ComputeRoot` calls `GetPeaks` and `Bag` instead of repeating the peak loop that `compute_root` inlines. The result is the same.
- The `for … break` loops of `build_peaks` and `generate_proof` are written as `while` loops whose guard is the negated `break` condition. The body of the carry loop is the helper method `PushParent`.

## Findings

| source | as written | input that shows it | evidently intended | confidence | as-written member | corrected member |
|---|---|---|---|---|---|---|
| src/lib.rs:75-88 | `build_peaks` pushes onto `layers[level + 1]` even when `level` is the top level | maxHeight = 1 and two appended leaves: level 0 has a pair, and `layers[1]` does not exist, so the index panics; in general, leaf number 2^maxHeight | an accumulator holds at most 2^maxHeight − 1 leaves, and a further append is refused rather than panicking | not executed | Levels.CarryReachesTop | Mountain.MerkleMountainRange.AppendLeaf |
| src/lib.rs:109, src/lib.rs:123 | the guard `level > self.max_height` lets `level == max_height` through to `self.layers[level]` | `get_level(max_height)` or `get_node(max_height, 0)`, for example max_height = 9 and level 9, indexes past the last of the 9 levels and panics | only levels below max_height exist, so the guard should be `level >= max_height` and return None | not executed | Mountain.LevelGuardAdmitsMissingLevel | Mountain.MerkleMountainRange.GetNode |
