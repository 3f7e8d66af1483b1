/** The accumulator as a pure function of its leaves.

    Level 0 is the sequence of leaf digests; level k+1 holds the parents of
    the adjacent pairs (2j, 2j+1) of level k. An odd-length level has an
    unpaired last node: a peak. Peaks are read from level 0 upward and
    bagged left to right into the root. An inclusion proof is the list of
    siblings met while walking up from a leaf to the peak above it. */
module Levels {
  import opened Digests
  import opened Bits

  /** Parents of the adjacent pairs of `s`; an odd last entry stays unpaired. */
  function Pairs(digest: HashFn, s: seq<Hash>): (r: seq<Hash>)
    ensures |r| == |s| / 2
    decreases |s|
  {
    if |s| < 2 then [] else [Combine(digest, s[0], s[1])] + Pairs(digest, s[2..])
  }

  /** Entry j of the pairs is the pair hash of entries 2j and 2j+1, left first. */
  lemma {:induction false} PairsAt(digest: HashFn, s: seq<Hash>, j: nat)
    requires j < |s| / 2
    ensures Pairs(digest, s)[j] == Combine(digest, s[2 * j], s[2 * j + 1])
    decreases j
  {
    if j > 0 {
      PairsAt(digest, s[2..], j - 1);
      assert s[2..][2 * (j - 1)] == s[2 * j];
      assert s[2..][2 * (j - 1) + 1] == s[2 * j + 1];
    }
  }

  /** Level `k` of the accumulator whose leaves are `leaves`. */
  function Level(digest: HashFn, leaves: seq<Hash>, k: nat): seq<Hash>
  {
    if k == 0 then leaves else Pairs(digest, Level(digest, leaves, k - 1))
  }

  /** Level k holds n >> k nodes, n being the number of leaves. */
  lemma {:induction false} LevelSize(digest: HashFn, leaves: seq<Hash>, k: nat)
    ensures |Level(digest, leaves, k)| == Shift(|leaves|, k)
  {
    if k > 0 {
      LevelSize(digest, leaves, k - 1);
    }
  }

  /** Level k holds floor(n / 2^k) nodes. */
  lemma LevelSizeDiv(digest: HashFn, leaves: seq<Hash>, k: nat)
    ensures |Level(digest, leaves, k)| == |leaves| / Pow2(k)
  {
    LevelSize(digest, leaves, k);
    ShiftIsDiv(|leaves|, k);
  }

  /** Every node above level 0 is the pair hash of its two children, left child first. */
  lemma ParentOfChildren(digest: HashFn, leaves: seq<Hash>, k: nat, j: nat)
    requires j < |Level(digest, leaves, k + 1)|
    ensures 2 * j + 1 < |Level(digest, leaves, k)|
    ensures Level(digest, leaves, k + 1)[j]
         == Combine(digest, Level(digest, leaves, k)[2 * j], Level(digest, leaves, k)[2 * j + 1])
  {
    PairsAt(digest, Level(digest, leaves, k), j);
  }

  /** One more entry at the end of a level adds a parent exactly when it completes a pair. */
  lemma {:induction false} PairsSnoc(digest: HashFn, s: seq<Hash>, x: Hash)
    ensures Pairs(digest, s + [x])
         == if |s| % 2 == 1 then Pairs(digest, s) + [Combine(digest, s[|s| - 1], x)]
            else Pairs(digest, s)
  {
    if |s| >= 2 {
      assert (s + [x])[2..] == s[2..] + [x];
      PairsSnoc(digest, s[2..], x);
    }
  }

  /** Appending a leaf only ever extends a level at its end, by at most one node. */
  lemma {:induction false} AppendExtendsLevel(digest: HashFn, leaves: seq<Hash>, h: Hash, k: nat)
    ensures Level(digest, leaves, k) <= Level(digest, leaves + [h], k)
    ensures |Level(digest, leaves + [h], k)| <= |Level(digest, leaves, k)| + 1
  {
    if k > 0 {
      AppendExtendsLevel(digest, leaves, h, k - 1);
      var a, b := Level(digest, leaves, k - 1), Level(digest, leaves + [h], k - 1);
      if |b| == |a| {
        assert a == b;
      } else {
        assert b == a + [b[|a|]];
        PairsSnoc(digest, a, b[|a|]);
      }
    }
  }

  /** The carry from level k: when level k has just grown by one node, level
      k+1 grows by the parent of the last two nodes of level k if that
      completed a pair, and stays as it was otherwise. */
  lemma CarryStep(digest: HashFn, prev: seq<Hash>, leaves: seq<Hash>, k: nat)
    requires Level(digest, prev, k) <= Level(digest, leaves, k)
    requires |Level(digest, leaves, k)| == |Level(digest, prev, k)| + 1
    ensures var b := Level(digest, leaves, k);
      Level(digest, leaves, k + 1)
      == if |b| % 2 == 0 then Level(digest, prev, k + 1) + [Combine(digest, b[|b| - 2], b[|b| - 1])]
         else Level(digest, prev, k + 1)
  {
    var a, b := Level(digest, prev, k), Level(digest, leaves, k);
    assert b == a + [b[|a|]];
    PairsSnoc(digest, a, b[|a|]);
  }

  /** The levels `ls` part-way through the carry that follows appending the last
      leaf of `leaves` to `prev`: levels up to `level` already hold the new
      levels, the ones above still hold the old ones, and level `level` has
      just grown by one node. */
  ghost predicate Carrying(digest: HashFn, prev: seq<Hash>, leaves: seq<Hash>, ls: seq<seq<Hash>>, level: nat)
  {
    level < |ls|
    && (forall k :: 0 <= k <= level ==> ls[k] == Level(digest, leaves, k))
    && (forall k :: level < k < |ls| ==> ls[k] == Level(digest, prev, k))
    && Level(digest, prev, level) <= Level(digest, leaves, level)
    && |Level(digest, leaves, level)| == |Level(digest, prev, level)| + 1
  }

  /** The carry starts at level 0, which has just received the new leaf. */
  lemma CarryStart(digest: HashFn, prev: seq<Hash>, h: Hash, ls: seq<seq<Hash>>)
    requires |ls| >= 1 && ls[0] == prev + [h]
    requires forall k :: 1 <= k < |ls| ==> ls[k] == Level(digest, prev, k)
    ensures Carrying(digest, prev, prev + [h], ls, 0)
  {
  }

  /** Pushing the parent of the last pair of level `level` onto the next level
      moves the carry up one level. */
  lemma CarryAdvance(digest: HashFn, prev: seq<Hash>, leaves: seq<Hash>, ls: seq<seq<Hash>>, level: nat,
                     parent: Hash, next: seq<seq<Hash>>)
    requires Carrying(digest, prev, leaves, ls, level) && level + 1 < |ls|
    requires |ls[level]| >= 2 && |ls[level]| % 2 == 0
    requires parent == Combine(digest, ls[level][|ls[level]| - 2], ls[level][|ls[level]| - 1])
    requires next == ls[level + 1 := ls[level + 1] + [parent]]
    ensures Carrying(digest, prev, leaves, next, level + 1)
  {
    CarryStep(digest, prev, leaves, level);
  }

  /** A carry that reaches a level of odd length is complete. */
  lemma CarryDone(digest: HashFn, prev: seq<Hash>, leaves: seq<Hash>, ls: seq<seq<Hash>>, level: nat)
    requires Carrying(digest, prev, leaves, ls, level) && |ls[level]| % 2 == 1
    ensures forall k :: 0 <= k < |ls| ==> ls[k] == Level(digest, leaves, k)
  {
    CarryStep(digest, prev, leaves, level);
    forall k | level < k < |ls|
      ensures ls[k] == Level(digest, leaves, k)
    {
      LevelsAgreeAbove(digest, prev, leaves, level + 1, k);
    }
  }

  /** Two leaf sequences that agree at level k agree at every level above it. */
  lemma {:induction false} LevelsAgreeAbove(digest: HashFn, a: seq<Hash>, b: seq<Hash>, k: nat, j: nat)
    requires k <= j && Level(digest, a, k) == Level(digest, b, k)
    ensures Level(digest, a, j) == Level(digest, b, j)
    decreases j - k
  {
    if k < j {
      LevelsAgreeAbove(digest, a, b, k + 1, j);
    }
  }

  /** Above an empty level every level is empty. */
  lemma {:induction false} EmptyAbove(digest: HashFn, leaves: seq<Hash>, k: nat, j: nat)
    requires k <= j && Level(digest, leaves, k) == []
    ensures Level(digest, leaves, j) == []
    decreases j - k
  {
    if k < j {
      EmptyAbove(digest, leaves, k + 1, j);
    }
  }

  /** A level with a complete pair lies below the top level when the leaf count
      is below 2^height: the carry out of level k stays in range. */
  lemma CarryBelowTop(digest: HashFn, leaves: seq<Hash>, height: nat, k: nat)
    requires |leaves| < Pow2(height) && |Level(digest, leaves, k)| >= 2
    ensures k + 1 < height
  {
    LevelSize(digest, leaves, k);
    if k + 1 == height {
      ShiftBelow(|leaves|, height, k);
    } else if height <= k {
      ShiftPastTop(|leaves|, height, k);
    }
  }

  /** A level holding any node lies below the top level. */
  lemma IndexBelowTop(digest: HashFn, leaves: seq<Hash>, height: nat, k: nat, idx: nat)
    requires |leaves| < Pow2(height) && idx < |Level(digest, leaves, k)|
    ensures k < height
  {
    LevelSize(digest, leaves, k);
    if height <= k {
      ShiftPastTop(|leaves|, height, k);
    }
  }

  /** Without a capacity check, the carry that follows leaf number 2^height
      finds a complete pair on every one of the `height` levels, the top one
      included, and so would have to push onto a level that does not exist. */
  lemma CarryReachesTop(digest: HashFn, leaves: seq<Hash>, h: Hash, height: nat)
    requires height >= 1 && |leaves| + 1 == Pow2(height)
    ensures forall k :: 0 <= k < height ==>
      |Level(digest, leaves + [h], k)| >= 2 && |Level(digest, leaves + [h], k)| % 2 == 0
  {
    forall k | 0 <= k < height
      ensures |Level(digest, leaves + [h], k)| >= 2 && |Level(digest, leaves + [h], k)| % 2 == 0
    {
      LevelSize(digest, leaves + [h], k);
      ShiftPow2(height, k);
      assert Pow2(height - k) == 2 * Pow2(height - k - 1);
    }
  }

  /** floor(log2 n) is the highest non-empty level. */
  lemma TopLevelIsHighest(digest: HashFn, leaves: seq<Hash>, height: nat)
    requires 0 < |leaves| < Pow2(height)
    ensures Log2(|leaves|) < height
    ensures |Level(digest, leaves, Log2(|leaves|))| > 0
    ensures |Level(digest, leaves, Log2(|leaves|) + 1)| == 0
  {
    var n, t := |leaves|, Log2(|leaves|);
    Log2Bounds(n);
    ShiftPositive(n, t);
    LevelSize(digest, leaves, t);
    assert |Level(digest, leaves, t)| >= 1;
    IndexBelowTop(digest, leaves, height, t, 0);
    ShiftPastTop(n, t + 1, t + 1);
    LevelSize(digest, leaves, t + 1);
    assert |Level(digest, leaves, t + 1)| == 0;
  }

  // ---------------------------------------------------------------- peaks

  /** The last node of every odd-length level below `k`, lowest level first. */
  function Peaks(digest: HashFn, leaves: seq<Hash>, k: nat): seq<Hash>
  {
    if k == 0 then []
    else
      var level := Level(digest, leaves, k - 1);
      Peaks(digest, leaves, k - 1) + (if |level| % 2 == 1 then [level[|level| - 1]] else [])
  }

  /** Level k is a peak exactly when bit k of the leaf count is set. */
  lemma PeakIffBit(digest: HashFn, leaves: seq<Hash>, k: nat)
    ensures |Level(digest, leaves, k)| % 2 == 1 <==> Bit(|leaves|, k)
  {
    LevelSize(digest, leaves, k);
  }

  lemma {:induction false} PeakCountBelow(digest: HashFn, leaves: seq<Hash>, k: nat)
    ensures |Peaks(digest, leaves, k)| + Popcount(Shift(|leaves|, k)) == Popcount(|leaves|)
  {
    if k > 0 {
      PeakCountBelow(digest, leaves, k - 1);
      LevelSize(digest, leaves, k - 1);
      var m := Shift(|leaves|, k - 1);
      assert Shift(|leaves|, k) == m / 2;
      assert Popcount(m) == m % 2 + Popcount(m / 2);
    }
  }

  /** The number of peaks is the number of set bits of the leaf count. */
  lemma PeakCount(digest: HashFn, leaves: seq<Hash>, height: nat)
    requires |leaves| < Pow2(height)
    ensures |Peaks(digest, leaves, height)| == Popcount(|leaves|)
  {
    PeakCountBelow(digest, leaves, height);
    ShiftPastTop(|leaves|, height, height);
  }

  /** A non-empty accumulator has at least one peak. */
  lemma PeaksNonEmpty(digest: HashFn, leaves: seq<Hash>, height: nat)
    requires 0 < |leaves| < Pow2(height)
    ensures Peaks(digest, leaves, height) != []
  {
    PeakCount(digest, leaves, height);
    PopcountPositive(|leaves|);
  }

  /** The last node of an odd-length level is one of the peaks. */
  lemma {:induction false} PeakInPeaks(digest: HashFn, leaves: seq<Hash>, height: nat, k: nat)
    requires k < height && |Level(digest, leaves, k)| % 2 == 1
    ensures Level(digest, leaves, k)[|Level(digest, leaves, k)| - 1] in Peaks(digest, leaves, height)
  {
    if k + 1 < height {
      PeakInPeaks(digest, leaves, height - 1, k);
    }
  }

  /** Levels above an empty one contribute no peaks. */
  lemma {:induction false} PeaksAboveEmpty(digest: HashFn, leaves: seq<Hash>, k: nat, height: nat)
    requires k <= height && Level(digest, leaves, k) == []
    ensures Peaks(digest, leaves, height) == Peaks(digest, leaves, k)
  {
    if k < height {
      PeaksAboveEmpty(digest, leaves, k, height - 1);
      EmptyAbove(digest, leaves, k, height - 1);
    }
  }

  /** The root: the peaks folded left to right with the pair hash, seeded
      with the lowest-level peak. */
  function Bagged(digest: HashFn, peaks: seq<Hash>): Hash
    requires |peaks| > 0
    decreases |peaks|
  {
    if |peaks| == 1 then peaks[0]
    else Combine(digest, Bagged(digest, peaks[..|peaks| - 1]), peaks[|peaks| - 1])
  }

  /** Peaks and roots of the one-, two- and three-leaf accumulators. */
  lemma SmallRanges(digest: HashFn, a: Hash, b: Hash, c: Hash, height: nat)
    requires height >= 2
    ensures Peaks(digest, [a], height) == [a]
    ensures Bagged(digest, Peaks(digest, [a], height)) == a
    ensures Peaks(digest, [a, b], height) == [Combine(digest, a, b)]
    ensures Bagged(digest, Peaks(digest, [a, b], height)) == Combine(digest, a, b)
    ensures Peaks(digest, [a, b, c], height) == [c, Combine(digest, a, b)]
    ensures Bagged(digest, Peaks(digest, [a, b, c], height)) == Combine(digest, c, Combine(digest, a, b))
  {
    assert Level(digest, [a], 1) == [];
    PeaksAboveEmpty(digest, [a], 1, height);
    assert Level(digest, [a, b], 1) == [Combine(digest, a, b)];
    assert Level(digest, [a, b], 2) == [];
    assert Peaks(digest, [a, b], 1) == [];
    PeaksAboveEmpty(digest, [a, b], 2, height);
    assert Level(digest, [a, b, c], 1) == [Combine(digest, a, b)];
    assert Level(digest, [a, b, c], 2) == [];
    assert Peaks(digest, [a, b, c], 1) == [c];
    PeaksAboveEmpty(digest, [a, b, c], 2, height);
    var p := [c, Combine(digest, a, b)];
    assert p[..1] == [c];
  }

  // --------------------------------------------------------------- proofs

  /** The index of the other child of the same parent. */
  function Sibling(idx: nat): nat
  {
    if idx % 2 == 0 then idx + 1 else idx - 1
  }

  /** One step up: the current node and its sibling, ordered by the parity of the current index. */
  function Step(digest: HashFn, current: Hash, idx: nat, sibling: Hash): Hash
  {
    if idx % 2 == 0 then Combine(digest, current, sibling) else Combine(digest, sibling, current)
  }

  /** The hash reached by walking up from `current`, at index `idx`, through the siblings of `proof`. */
  function Walk(digest: HashFn, current: Hash, idx: nat, proof: seq<Hash>): Hash
    decreases |proof|
  {
    if proof == [] then current
    else Walk(digest, Step(digest, current, idx, proof[0]), idx / 2, proof[1..])
  }

  /** Node `idx` of level k is unpaired: even and last in its level, so a peak. */
  predicate IsPeakNode(digest: HashFn, leaves: seq<Hash>, k: nat, idx: nat)
  {
    idx % 2 == 0 && idx + 1 == |Level(digest, leaves, k)|
  }

  /** At level j, the ancestor of leaf i is paired and `sibling` is its sibling. */
  predicate SiblingAt(digest: HashFn, leaves: seq<Hash>, i: nat, j: nat, sibling: Hash)
  {
    var x := Shift(i, j);
    var level := Level(digest, leaves, j);
    !IsPeakNode(digest, leaves, j, x) && x < |level| && Sibling(x) < |level|
    && sibling == level[Sibling(x)]
  }

  /** `proof` is the inclusion proof of leaf i: the siblings of its ancestors
      from level 0 up to the first ancestor that is a peak, in a range of
      `height` levels. */
  predicate IsInclusionProof(digest: HashFn, leaves: seq<Hash>, height: nat, i: nat, proof: seq<Hash>)
  {
    i < |leaves| && |proof| < height
    && (forall j :: 0 <= j < |proof| ==> SiblingAt(digest, leaves, i, j, proof[j]))
    && IsPeakNode(digest, leaves, |proof|, Shift(i, |proof|))
  }

  /** Hashing a paired entry with its sibling, in the order its parity gives,
      yields its parent. */
  lemma PairStep(digest: HashFn, s: seq<Hash>, x: nat, sibling: Hash)
    requires x < |s| && Sibling(x) < |s| && sibling == s[Sibling(x)]
    ensures x / 2 < |Pairs(digest, s)|
    ensures Step(digest, s[x], x, sibling) == Pairs(digest, s)[x / 2]
  {
    var j := x / 2;
    PairsAt(digest, s, j);
    if x % 2 == 0 {
      assert x == 2 * j && Sibling(x) == 2 * j + 1;
    } else {
      assert x == 2 * j + 1 && Sibling(x) == 2 * j;
    }
  }

  /** The same step, between two levels of the accumulator. */
  lemma StepToParent(digest: HashFn, leaves: seq<Hash>, k: nat, x: nat, sibling: Hash)
    requires x < |Level(digest, leaves, k)| && Sibling(x) < |Level(digest, leaves, k)|
    requires sibling == Level(digest, leaves, k)[Sibling(x)]
    ensures x / 2 < |Level(digest, leaves, k + 1)|
    ensures Step(digest, Level(digest, leaves, k)[x], x, sibling) == Level(digest, leaves, k + 1)[x / 2]
  {
    PairStep(digest, Level(digest, leaves, k), x, sibling);
  }

  /** One step of the walk moves from a paired node to its parent. */
  lemma WalkUp(digest: HashFn, leaves: seq<Hash>, k: nat, x: nat, proof: seq<Hash>, target: Hash)
    requires proof != [] && x < |Level(digest, leaves, k)| && Sibling(x) < |Level(digest, leaves, k)|
    requires proof[0] == Level(digest, leaves, k)[Sibling(x)]
    requires x / 2 < |Level(digest, leaves, k + 1)|
    requires Walk(digest, Level(digest, leaves, k + 1)[x / 2], x / 2, proof[1..]) == target
    ensures Walk(digest, Level(digest, leaves, k)[x], x, proof) == target
  {
    StepToParent(digest, leaves, k, x, proof[0]);
  }

  /** The ancestor of leaf i at a level an inclusion proof passes through is paired,
      and walking from it moves to its parent. */
  lemma WalkFromStep(digest: HashFn, leaves: seq<Hash>, height: nat, i: nat, proof: seq<Hash>, m: nat, target: Hash)
    requires IsInclusionProof(digest, leaves, height, i, proof) && m < |proof|
    requires Shift(i, m + 1) < |Level(digest, leaves, m + 1)|
    requires Walk(digest, Level(digest, leaves, m + 1)[Shift(i, m + 1)], Shift(i, m + 1), proof[m + 1..]) == target
    ensures Shift(i, m) < |Level(digest, leaves, m)|
    ensures Walk(digest, Level(digest, leaves, m)[Shift(i, m)], Shift(i, m), proof[m..]) == target
  {
    var x := Shift(i, m);
    assert SiblingAt(digest, leaves, i, m, proof[m]);
    assert proof[m..][1..] == proof[m + 1..];
    StepToParent(digest, leaves, m, x, proof[m]);
    WalkUp(digest, leaves, m, x, proof[m..], target);
  }

  /** Walking the rest of an inclusion proof from the ancestor at level m
      reaches the peak the proof ends at. */
  lemma {:induction false} WalkFrom(digest: HashFn, leaves: seq<Hash>, height: nat, i: nat, proof: seq<Hash>, m: nat)
    requires IsInclusionProof(digest, leaves, height, i, proof) && m <= |proof|
    ensures Shift(i, m) < |Level(digest, leaves, m)|
    ensures Walk(digest, Level(digest, leaves, m)[Shift(i, m)], Shift(i, m), proof[m..])
         == Level(digest, leaves, |proof|)[Shift(i, |proof|)]
    decreases |proof| - m
  {
    if m == |proof| {
      assert proof[m..] == [];
    } else {
      WalkFrom(digest, leaves, height, i, proof, m + 1);
      WalkFromStep(digest, leaves, height, i, proof, m, Level(digest, leaves, |proof|)[Shift(i, |proof|)]);
    }
  }

  /** Walking an inclusion proof up from its leaf ends at one of the peaks. */
  lemma ProofReachesPeak(digest: HashFn, leaves: seq<Hash>, height: nat, i: nat, proof: seq<Hash>)
    requires IsInclusionProof(digest, leaves, height, i, proof)
    ensures Walk(digest, leaves[i], i, proof) in Peaks(digest, leaves, height)
  {
    var k := |proof|;
    var top := Level(digest, leaves, k);
    var x := Shift(i, k);
    assert IsPeakNode(digest, leaves, k, x);
    assert x == |top| - 1 && |top| % 2 == 1;
    WalkFrom(digest, leaves, height, i, proof, 0);
    assert proof[0..] == proof;
    assert Walk(digest, leaves[i], i, proof) == top[x];
    PeakInPeaks(digest, leaves, height, k);
  }
}
