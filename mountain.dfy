/** The Merkle Mountain Range accumulator object.

    It stores every level as a growable sequence of digests and keeps, as
    its invariant, that stored level k equals the level k that the pure
    model in module Levels computes from the leaves. Appends push at the
    ends of levels only; all queries read the current snapshot. */
module Mountain {
  import opened Digests
  import opened Bits
  import opened Levels

  class MerkleMountainRange {
    /** layers[k] is level k; layers[0] holds the leaf digests. */
    var layers: seq<seq<Hash>>
    /** The number of levels, fixed at construction. */
    const maxHeight: nat
    const hashType: HashType
    /** The hash algorithm that `hashType` selects. */
    const digest: HashFn

    /** Every stored level is the level computed from the leaves, and the
        leaf count fits below the top level: at most 2^maxHeight - 1. */
    ghost predicate Valid()
      reads this
    {
      1 <= maxHeight && |layers| == maxHeight
      && |layers[0]| < Pow2(maxHeight)
      && forall k :: 0 <= k < maxHeight ==> layers[k] == Level(digest, layers[0], k)
    }

    /** An accumulator with `maxHeight` empty levels. */
    constructor (maxHeight: nat, hashType: HashType, digest: HashFn)
      requires maxHeight >= 1
      ensures Valid()
      ensures this.maxHeight == maxHeight && this.hashType == hashType && this.digest == digest
      ensures |layers| == maxHeight && forall k :: 0 <= k < maxHeight ==> layers[k] == []
    {
      this.maxHeight := maxHeight;
      this.hashType := hashType;
      this.digest := digest;
      var levels: seq<seq<Hash>> := [];
      for i := 0 to maxHeight
        invariant |levels| == i && forall k :: 0 <= k < i ==> levels[k] == []
      {
        levels := levels + [[]];
      }
      layers := levels;
      forall k | 0 <= k < maxHeight
        ensures levels[k] == Level(digest, levels[0], k)
      {
        EmptyAbove(digest, [], 0, k);
      }
    }

    /** Appends a leaf digest and carries completed pairs upward. A leaf that
        would need a level at or above maxHeight is refused: the result is
        false and nothing changes. */
    method AppendLeaf(hash: Hash) returns (ok: bool)
      requires Valid()
      modifies this
      ensures Valid()
      ensures ok <==> |old(layers[0])| + 1 < Pow2(maxHeight)
      ensures ok ==> layers[0] == old(layers[0]) + [hash]
      ensures !ok ==> layers == old(layers)
      ensures forall k :: 0 <= k < maxHeight ==>
        old(layers)[k] <= layers[k] && |layers[k]| <= |old(layers)[k]| + 1
    {
      if |layers[0]| + 1 >= Pow2(maxHeight) {
        return false;
      }
      ghost var before := layers[0];
      layers := layers[0 := layers[0] + [hash]];
      assert layers[0][..|layers[0]| - 1] == before;
      BuildPeaks();
      forall k | 0 <= k < maxHeight
        ensures old(layers)[k] <= layers[k] && |layers[k]| <= |old(layers)[k]| + 1
      {
        AppendExtendsLevel(digest, before, hash, k);
      }
      ok := true;
    }

    /** Appends the digest of `data`. */
    method AppendData(data: seq<bv8>) returns (ok: bool)
      requires Valid()
      modifies this
      ensures Valid()
      ensures ok <==> |old(layers[0])| + 1 < Pow2(maxHeight)
      ensures ok ==> layers[0] == old(layers[0]) + [digest(data)]
      ensures !ok ==> layers == old(layers)
    {
      ok := AppendLeaf(digest(data));
    }

    /** The carry after a leaf has been pushed onto level 0: while the
        current level ends in a complete pair, push the parent of its last
        two nodes onto the next level and move up; stop at the first level
        of odd length. */
    method BuildPeaks()
      requires 1 <= maxHeight && |layers| == maxHeight && |layers[0]| >= 1
      requires |layers[0]| < Pow2(maxHeight)
      requires forall k :: 1 <= k < maxHeight ==>
        layers[k] == Level(digest, layers[0][..|layers[0]| - 1], k)
      modifies this
      ensures Valid() && layers[0] == old(layers[0])
    {
      ghost var leaves := layers[0];
      ghost var prev := leaves[..|leaves| - 1];
      assert leaves == prev + [leaves[|leaves| - 1]];
      CarryStart(digest, prev, leaves[|leaves| - 1], layers);
      var level := 0;
      while level < maxHeight && |layers[level]| >= 2 && |layers[level]| % 2 == 0
        invariant |layers| == maxHeight && layers[0] == leaves
        invariant Carrying(digest, prev, leaves, layers, level)
        decreases maxHeight - level
      {
        CarryBelowTop(digest, leaves, maxHeight, level);
        PushParent(level, prev, leaves);
        level := level + 1;
      }
      CarryDone(digest, prev, leaves, layers, level);
    }

    /** One step of the carry: the parent of the last two nodes of level
        `level` is pushed onto level `level + 1`. */
    method PushParent(level: nat, ghost prev: seq<Hash>, ghost leaves: seq<Hash>)
      requires level + 1 < maxHeight && |layers| == maxHeight && layers[0] == leaves
      requires Carrying(digest, prev, leaves, layers, level)
      requires |layers[level]| >= 2 && |layers[level]| % 2 == 0
      modifies this
      ensures |layers| == maxHeight && layers[0] == leaves
      ensures Carrying(digest, prev, leaves, layers, level + 1)
      ensures var last := old(layers)[level];
        layers == old(layers)[level + 1 := old(layers)[level + 1]
                  + [Combine(digest, last[|last| - 2], last[|last| - 1])]]
    {
      var size := |layers[level]|;
      var parent := Combine(digest, layers[level][size - 2], layers[level][size - 1]);
      var next := layers[level + 1 := layers[level + 1] + [parent]];
      CarryAdvance(digest, prev, leaves, layers, level, parent, next);
      layers := next;
    }

    /** Node `index` of level `level`, if both exist. */
    function GetNode(level: nat, index: nat): (r: Option<Hash>)
      reads this
      requires Valid()
      ensures r.Some? <==> level < maxHeight && index < |layers[0]| / Pow2(level)
      ensures r.Some? ==> index < |Level(digest, layers[0], level)|
                          && r.value == Level(digest, layers[0], level)[index]
    {
      if level >= maxHeight then None
      else
        LevelSizeDiv(digest, layers[0], level);
        if index < |layers[level]| then Some(layers[level][index]) else None
    }

    /** All nodes of level `level`, if it exists. */
    function GetLevel(level: nat): (r: Option<seq<Hash>>)
      reads this
      requires Valid()
      ensures r.Some? <==> level < maxHeight
      ensures r.Some? ==> r.value == Level(digest, layers[0], level)
                          && |r.value| == |layers[0]| / Pow2(level)
    {
      if level >= maxHeight then None
      else
        LevelSizeDiv(digest, layers[0], level);
        Some(layers[level])
    }

    /** The highest non-empty level, floor(log2 n) for n leaves. */
    function TopLevel(): (r: Option<nat>)
      reads this
      requires Valid()
      ensures r.None? <==> layers[0] == []
      ensures r.Some? ==> Pow2(r.value) <= |layers[0]| < Pow2(r.value + 1)
      ensures r.Some? ==> r.value < maxHeight && layers[r.value] != []
                          && (r.value + 1 < maxHeight ==> layers[r.value + 1] == [])
    {
      if layers[0] == [] then None
      else
        Log2Bounds(|layers[0]|);
        TopLevelIsHighest(digest, layers[0], maxHeight);
        Some(Log2(|layers[0]|))
    }

    /** The last node of every odd-length level, lowest level first. */
    method GetPeaks() returns (r: Option<seq<Hash>>)
      requires Valid()
      ensures r.None? <==> layers[0] == []
      ensures r.Some? ==> r.value == Peaks(digest, layers[0], maxHeight)
      ensures r.Some? ==> |r.value| == Popcount(|layers[0]|)
    {
      if layers[0] == [] {
        return None;
      }
      ghost var leaves := layers[0];
      var peaks: seq<Hash> := [];
      for level := 0 to maxHeight
        invariant peaks == Peaks(digest, leaves, level)
      {
        var nodes := layers[level];
        assert nodes == Level(digest, leaves, level);
        if |nodes| % 2 == 1 {
          peaks := peaks + [nodes[|nodes| - 1]];
        }
      }
      PeakCount(digest, leaves, maxHeight);
      return Some(peaks);
    }

    /** Folds `peaks` left to right with the pair hash, starting from the first. */
    method Bag(peaks: seq<Hash>) returns (root: Hash)
      requires |peaks| > 0
      ensures root == Bagged(digest, peaks)
    {
      root := peaks[0];
      for i := 1 to |peaks|
        invariant root == Bagged(digest, peaks[..i])
      {
        assert peaks[..i + 1][..i] == peaks[..i];
        root := Combine(digest, root, peaks[i]);
      }
      assert peaks[..|peaks|] == peaks;
    }

    /** The root: the peaks bagged from the lowest level up. */
    method ComputeRoot() returns (r: Option<Hash>)
      requires Valid()
      ensures r.None? <==> layers[0] == []
      ensures r.Some? ==> Peaks(digest, layers[0], maxHeight) != []
                          && r.value == Bagged(digest, Peaks(digest, layers[0], maxHeight))
    {
      var peaks := GetPeaks();
      if peaks.None? {
        return None;
      }
      PeaksNonEmpty(digest, layers[0], maxHeight);
      var root := Bag(peaks.value);
      return Some(root);
    }

    /** The inclusion proof of leaf `leafIndex`: the siblings of its
        ancestors, from level 0 up to the first ancestor that is a peak. */
    method GenerateProof(leafIndex: nat) returns (r: Option<seq<Hash>>)
      requires Valid()
      ensures r.None? <==> leafIndex >= |layers[0]|
      ensures r.Some? ==> IsInclusionProof(digest, layers[0], maxHeight, leafIndex, r.value)
    {
      if leafIndex >= |layers[0]| {
        return None;
      }
      var proof: seq<Hash> := [];
      var current := leafIndex;
      var level := 0;
      while level < maxHeight && !(current == |layers[level]| - 1 && current % 2 == 0)
        invariant 0 <= level < maxHeight
        invariant |proof| == level
        invariant current == Shift(leafIndex, level) && current < |layers[level]|
        invariant forall j :: 0 <= j < level ==> SiblingAt(digest, layers[0], leafIndex, j, proof[j])
        decreases maxHeight - level
      {
        var sibling := if current % 2 == 0 then current + 1 else current - 1;
        assert SiblingAt(digest, layers[0], leafIndex, level, layers[level][sibling]);
        StepToParent(digest, layers[0], level, current, layers[level][sibling]);
        CarryBelowTop(digest, layers[0], maxHeight, level);
        proof := proof + [layers[level][sibling]];
        current := current / 2;
        level := level + 1;
      }
      return Some(proof);
    }

    /** Replays a proof from `leaf` and checks two things: the hash reached is
        one of `peaks`, and `peaks` bag to `root`. The peaks are taken as
        given, not derived from the proof. */
    method VerifyProof(root: Hash, peaks: seq<Hash>, proof: seq<Hash>, leaf: Hash, leafIndex: nat)
      returns (valid: bool)
      requires |peaks| > 0
      ensures valid <==> Walk(digest, leaf, leafIndex, proof) in peaks && root == Bagged(digest, peaks)
    {
      var currentHash := leaf;
      var currentIndex := leafIndex;
      for j := 0 to |proof|
        invariant Walk(digest, currentHash, currentIndex, proof[j..]) == Walk(digest, leaf, leafIndex, proof)
      {
        var sibling := proof[j];
        var left, right;
        if currentIndex % 2 == 0 {
          left, right := currentHash, sibling;
        } else {
          left, right := sibling, currentHash;
        }
        assert proof[j..][1..] == proof[j + 1..];
        currentIndex := currentIndex / 2;
        currentHash := Combine(digest, left, right);
      }
      assert proof[|proof|..] == [];
      var currentRoot := Bag(peaks);
      valid := currentHash in peaks && root == currentRoot;
    }

    /** The round trip of the demo program: the proof generated for a leaf,
        checked against the current peaks and root, verifies. */
    method CheckInclusion(leafIndex: nat) returns (valid: bool)
      requires Valid() && leafIndex < |layers[0]|
      ensures valid
    {
      var proof := GenerateProof(leafIndex);
      var peaks := GetPeaks();
      var leaf := GetNode(0, leafIndex);
      var root := ComputeRoot();
      ProofReachesPeak(digest, layers[0], maxHeight, leafIndex, proof.value);
      valid := VerifyProof(root.value, peaks.value, proof.value, leaf.value, leafIndex);
    }
  }

  /** The level guard of get_node and get_level as written: it turns away
      only levels above max_height. */
  predicate SourceLevelGuardPasses(level: nat, maxHeight: nat)
  {
    !(level > maxHeight)
  }

  /** That guard lets level max_height through, although no such level is stored. */
  lemma LevelGuardAdmitsMissingLevel(m: MerkleMountainRange)
    requires m.Valid()
    ensures SourceLevelGuardPasses(m.maxHeight, m.maxHeight) && |m.layers| <= m.maxHeight
  {
  }
}
